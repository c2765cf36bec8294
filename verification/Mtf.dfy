/** Move-to-front transform (`coding/bwt_preprocess.rs`). */
module Mtf {
  import opened Bytes
  import Permutation

  /** A ranking of all 256 byte values. */
  ghost predicate IsRanking(l: seq<byte>) {
    |l| == 256 && forall i, j :: 0 <= i < j < 256 ==> l[i] != l[j]
  }

  function Identity(): (l: seq<byte>)
    ensures IsRanking(l) && forall i :: 0 <= i < 256 ==> l[i] == i
  {
    seq(256, i requires 0 <= i < 256 => i)
  }

  /** The list after the byte at rank `r` has moved to the front. */
  function MovedToFront(l: seq<byte>, r: nat): (m: seq<byte>)
    requires r < |l|
    ensures |m| == |l|
    ensures forall i :: 0 <= i < |l| ==> m[i] == if i == 0 then l[r] else if i <= r then l[i - 1] else l[i]
  {
    [l[r]] + l[..r] + l[r + 1..]
  }

  lemma MovedIsRanking(l: seq<byte>, r: nat)
    requires IsRanking(l) && r < 256
    ensures IsRanking(MovedToFront(l, r))
  {
    var m := MovedToFront(l, r);
    forall i, j | 0 <= i < j < 256
      ensures m[i] != m[j]
    {
      var a := if i == 0 then r else if i <= r then i - 1 else i;
      var b := if j == 0 then r else if j <= r then j - 1 else j;
      assert m[i] == l[a] && m[j] == l[b] && a != b;
    }
  }

  function Encoded(data: seq<byte>, l: seq<byte>): (ranks: seq<byte>)
    requires IsRanking(l)
    ensures |ranks| == |data|
    decreases |data|
  {
    if data == [] then [] else
    var r := RankOf(l, data[0]);
    MovedIsRanking(l, r);
    [r] + Encoded(data[1..], MovedToFront(l, r))
  }

  function Decoded(ranks: seq<byte>, l: seq<byte>): (data: seq<byte>)
    requires IsRanking(l)
    ensures |data| == |ranks|
    decreases |ranks|
  {
    if ranks == [] then [] else
    MovedIsRanking(l, ranks[0]);
    [l[ranks[0]]] + Decoded(ranks[1..], MovedToFront(l, ranks[0]))
  }

  /** Where a byte stands in a ranking; every byte stands somewhere. */
  function RankOf(l: seq<byte>, b: byte): (r: byte)
    requires IsRanking(l)
    ensures l[r] == b
  {
    EveryByteRanked(l, b);
    FirstIndex(l, b, 0)
  }

  function FirstIndex(l: seq<byte>, b: byte, i: nat): (r: nat)
    requires i <= |l| && b in l[i..]
    ensures r < |l| && l[r] == b
    decreases |l| - i
  {
    if l[i] == b then i else
    assert l[i..] == [l[i]] + l[i + 1..];
    FirstIndex(l, b, i + 1)
  }

  lemma EveryByteRanked(l: seq<byte>, b: byte)
    requires IsRanking(l)
    ensures b in l[0..]
  {
    assert l[0..] == l;
    var p: seq<nat> := l;
    Permutation.Surjective(p, b);
  }

  lemma RankUnique(l: seq<byte>, r: byte)
    requires IsRanking(l)
    ensures RankOf(l, l[r]) == r
  {
  }

  /** Decoding undoes encoding. */
  lemma {:induction false} DecodeEncode(data: seq<byte>, l: seq<byte>)
    requires IsRanking(l)
    ensures Decoded(Encoded(data, l), l) == data
    decreases |data|
  {
    if data != [] {
      var r := RankOf(l, data[0]);
      MovedIsRanking(l, r);
      DecodeEncode(data[1..], MovedToFront(l, r));
      assert Encoded(data, l)[1..] == Encoded(data[1..], MovedToFront(l, r));
      assert data == [data[0]] + data[1..];
    }
  }

  /** Encoding undoes decoding, so the transform is a bijection on byte sequences. */
  lemma {:induction false} EncodeDecode(ranks: seq<byte>, l: seq<byte>)
    requires IsRanking(l)
    ensures Encoded(Decoded(ranks, l), l) == ranks
    decreases |ranks|
  {
    if ranks != [] {
      var r := ranks[0];
      MovedIsRanking(l, r);
      RankUnique(l, r);
      EncodeDecode(ranks[1..], MovedToFront(l, r));
      assert Decoded(ranks, l)[1..] == Decoded(ranks[1..], MovedToFront(l, r));
      assert ranks == [r] + ranks[1..];
    }
  }

  // ---------------------------------------------------------------------------------------------
  // What a rank counts
  // ---------------------------------------------------------------------------------------------

  /** One more than where `x` was last seen; 0 if never. */
  function LastSeen(seen: seq<byte>, x: byte): (k: nat)
    ensures k <= |seen|
  {
    if seen == [] then 0
    else if seen[|seen| - 1] == x then |seen|
    else LastSeen(seen[..|seen| - 1], x)
  }

  /** `x` has been seen later than `b`, or neither has been seen and `x` is smaller. */
  predicate Ahead(seen: seq<byte>, x: byte, b: byte) {
    LastSeen(seen, x) > LastSeen(seen, b) || (LastSeen(seen, x) == LastSeen(seen, b) == 0 && x < b)
  }

  ghost function AllAhead(seen: seq<byte>, b: byte): set<int> {
    set x | 0 <= x < 256 && Ahead(seen, x, b)
  }

  /** The list is sorted by when its bytes were seen last. */
  ghost predicate ByRecency(seen: seq<byte>, l: seq<byte>) {
    forall i, j :: 0 <= i < j < |l| ==> Ahead(seen, l[i], l[j])
  }

  lemma SeenPush(seen: seq<byte>, b: byte, x: byte)
    ensures LastSeen(seen + [b], x) == if x == b then |seen| + 1 else LastSeen(seen, x)
  {
    assert (seen + [b])[..|seen|] == seen;
  }

  lemma RecencyKept(seen: seq<byte>, l: seq<byte>, r: byte)
    requires IsRanking(l) && ByRecency(seen, l)
    ensures ByRecency(seen + [l[r]], MovedToFront(l, r))
  {
    var b, m := l[r], MovedToFront(l, r);
    MovedIsRanking(l, r);
    forall i, j | 0 <= i < j < |m|
      ensures Ahead(seen + [b], m[i], m[j])
    {
      SeenPush(seen, b, m[i]);
      SeenPush(seen, b, m[j]);
    }
  }

  /** A rank is the number of bytes ahead. */
  lemma RankCounts(seen: seq<byte>, l: seq<byte>, b: byte)
    requires IsRanking(l) && ByRecency(seen, l)
    ensures RankOf(l, b) as nat == |AllAhead(seen, b)|
  {
    var r := RankOf(l, b);
    forall x | 0 <= x < 256
      ensures x in AllAhead(seen, b) <==> x in Front(l, r)
    {
      var k := RankOf(l, x);
      assert l[k] == x && l[r] == b;
    }
    assert AllAhead(seen, b) == Front(l, r);
    FrontSize(l, r);
  }

  ghost function Front(l: seq<byte>, r: nat): set<int>
    requires r <= |l|
  {
    set i | 0 <= i < r :: l[i] as int
  }

  lemma {:induction false} FrontSize(l: seq<byte>, r: nat)
    requires IsRanking(l) && r <= 256
    ensures |Front(l, r)| == r
  {
    if r > 0 {
      FrontSize(l, r - 1);
      assert Front(l, r) == Front(l, r - 1) + {l[r - 1] as int};
    }
  }

  lemma {:induction false} RanksCount(seen: seq<byte>, data: seq<byte>, l: seq<byte>, i: nat)
    requires IsRanking(l) && ByRecency(seen, l) && i < |data|
    ensures Encoded(data, l)[i] as nat == |AllAhead(seen + data[..i], data[i])|
    decreases |data|
  {
    var r := RankOf(l, data[0]);
    if i == 0 {
      RankCounts(seen, l, data[0]);
      assert seen + data[..0] == seen;
    } else {
      MovedIsRanking(l, r);
      RecencyKept(seen, l, r);
      RanksCount(seen + [data[0]], data[1..], MovedToFront(l, r), i - 1);
      assert seen + data[..i] == (seen + [data[0]]) + data[1..][..i - 1];
    }
  }

  /**
   The rank of a byte is the number of byte values seen since it was; of a byte not seen before, the number of
   those seen or smaller.
   */
  lemma RanksAreRecency(data: seq<byte>, i: nat)
    requires i < |data|
    ensures Encoded(data, Identity())[i] as nat == |AllAhead(data[..i], data[i])|
  {
    IdentityByRecency();
    hide Encoded, AllAhead, ByRecency, IsRanking;
    RanksCount([], data, Identity(), i);
    assert [] + data[..i] == data[..i];
  }

  lemma IdentityByRecency()
    ensures ByRecency([], Identity())
  {
  }

  // ---------------------------------------------------------------------------------------------
  // The methods, with `list` and `pos` shifted in place
  // ---------------------------------------------------------------------------------------------

  /** `pos` is the inverse of `list`. */
  ghost predicate Inverses(list: seq<byte>, pos: seq<byte>) {
    IsRanking(list) && |pos| == 256 && forall b: byte :: list[pos[b]] == b
  }

  lemma InverseAt(list: seq<byte>, pos: seq<byte>, k: nat)
    requires Inverses(list, pos) && k < 256
    ensures pos[list[k]] == k
  {
  }

  /** Where `c` stands once the entries from `i` up to `r` have been shifted by one. */
  function Shifted(p: nat, i: nat, r: nat): nat {
    if i <= p < r then p + 1 else p
  }

  /** Shift `list[..r]` up by one and put `b` in front, keeping `pos` in agreement. */
  method Shift(list: array<byte>, pos: array<byte>, r: byte, b: byte)
    requires list != pos && Inverses(list[..], pos[..]) && list[r] == b
    modifies list, pos
    ensures list[..] == MovedToFront(old(list[..]), r)
    ensures Inverses(list[..], pos[..])
  {
    ghost var l, p := list[..], pos[..];
    InverseAt(l, p, r);
    var i: nat := r;
    while i > 0
      invariant i <= r && list.Length == 256 && pos.Length == 256
      invariant forall k :: 0 <= k <= i ==> list[k] == l[k]
      invariant forall k :: i < k <= r ==> list[k] == l[k - 1]
      invariant forall k :: r < k < 256 ==> list[k] == l[k]
      invariant forall c: byte :: pos[c] == Shifted(p[c], i, r)
    {
      InverseAt(l, p, i - 1);
      var c := list[i - 1];
      list[i] := c;
      pos[c] := i;
      i := i - 1;
    }
    list[0] := b;
    pos[b] := 0;
    assert list[..] == MovedToFront(l, r);
    ShiftedInverse(l, p, pos[..], r);
  }

  lemma ShiftedInverse(l: seq<byte>, p: seq<byte>, q: seq<byte>, r: byte)
    requires Inverses(l, p) && |q| == 256 && q[l[r]] == 0
    requires forall c: byte :: c != l[r] ==> q[c] == Shifted(p[c], 0, r)
    ensures Inverses(MovedToFront(l, r), q)
  {
    MovedIsRanking(l, r);
    InverseAt(l, p, r);
    var m := MovedToFront(l, r);
    forall c: byte
      ensures m[q[c]] == c
    {
      assert l[p[c]] == c;
      if c != l[r] {
        assert p[c] != r;
      }
    }
  }

  method Encode(data: seq<byte>) returns (output: seq<byte>)
    ensures output == Encoded(data, Identity())
  {
    var list := new byte[256](i requires 0 <= i < 256 => i);
    var pos := new byte[256](i requires 0 <= i < 256 => i);
    assert list[..] == Identity();
    output := [];
    ghost var goal := Encoded(data, list[..]);
    assert data[0..] == data;
    for i := 0 to |data|
      invariant Inverses(list[..], pos[..])
      invariant output + Encoded(data[i..], list[..]) == goal
    {
      var b := data[i];
      var rank := pos[b];
      ghost var l := list[..];
      assert pos[..][b] == rank && l[rank] == b;
      EncodedStep(data, i, l, rank, output);
      output := output + [rank];
      if rank > 0 {
        Shift(list, pos, rank, b);
      } else {
        FrontStays(l);
      }
    }
    assert output + [] == output;
  }

  lemma FrontStays(l: seq<byte>)
    requires |l| > 0
    ensures MovedToFront(l, 0) == l
  {
  }

  lemma EncodedStep(data: seq<byte>, i: nat, l: seq<byte>, rank: byte, done: seq<byte>)
    requires i < |data| && IsRanking(l) && l[rank] == data[i]
    ensures IsRanking(MovedToFront(l, rank))
    ensures done + Encoded(data[i..], l) == (done + [rank]) + Encoded(data[i + 1..], MovedToFront(l, rank))
  {
    RankUnique(l, rank);
    MovedIsRanking(l, rank);
    assert data[i..][1..] == data[i + 1..];
  }

  /** One `copy_within` and one store. */
  method MoveToFront(list: array<byte>, r: byte)
    requires r < list.Length
    modifies list
    ensures list[..] == MovedToFront(old(list[..]), r)
  {
    var b := list[r];
    forall k | 1 <= k <= r as int {
      list[k] := list[k - 1];
    }
    list[0] := b;
  }

  method Decode(data: seq<byte>) returns (output: seq<byte>)
    ensures output == Decoded(data, Identity())
  {
    var list := new byte[256](i requires 0 <= i < 256 => i);
    assert list[..] == Identity();
    output := [];
    assert data[0..] == data && output + Decoded(data, Identity()) == Decoded(data, Identity());
    hide Decoded, IsRanking, MovedToFront;
    for i := 0 to |data|
      invariant IsRanking(list[..])
      invariant output + Decoded(data[i..], list[..]) == Decoded(data, Identity())
    {
      var r := data[i];
      ghost var l := list[..];
      DecodedStep(data, i, l, output);
      RankingLength(l);
      output := output + [list[r]];
      if r > 0 {
        MoveToFront(list, r);
      } else {
        FrontStays(l);
      }
    }
    DecodedNothing(list[..]);
  }

  lemma RankingLength(l: seq<byte>)
    requires IsRanking(l)
    ensures |l| == 256
  {
  }

  lemma DecodedNothing(l: seq<byte>)
    requires IsRanking(l)
    ensures Decoded([], l) == []
  {
  }

  lemma DecodedStep(data: seq<byte>, i: nat, l: seq<byte>, done: seq<byte>)
    requires i < |data| && IsRanking(l)
    ensures IsRanking(MovedToFront(l, data[i]))
    ensures done + Decoded(data[i..], l) == (done + [l[data[i]]]) + Decoded(data[i + 1..], MovedToFront(l, data[i]))
  {
    MovedIsRanking(l, data[i]);
    assert data[i..][1..] == data[i + 1..];
  }
}
