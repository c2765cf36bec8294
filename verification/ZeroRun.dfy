/**
 Zero-run coding of move-to-front ranks (`coding/bwt_preprocess.rs`): runs of zeros become bijective
 base-2 digits 0 and 1, least significant first, and every other rank is shifted up by one. The plain
 form cannot hold rank 255; the escaped form can.
 */
module ZeroRun {
  import opened Bytes

  // ---------------------------------------------------------------------------------------------
  // Bijective base 2
  // ---------------------------------------------------------------------------------------------

  /** `encode_run_length`: digit symbol 0 counts 1 and digit symbol 1 counts 2. */
  function RunDigits(n: nat): (d: seq<byte>)
    ensures |d| <= n && (n > 0 ==> d != []) && forall i :: 0 <= i < |d| ==> d[i] <= 1
  {
    if n == 0 then [] else [(n - 1) % 2] + RunDigits((n - 1) / 2)
  }

  /** The run length a digit string denotes. */
  function RunValue(d: seq<byte>): (n: nat)
    ensures d != [] ==> n > 0
  {
    if d == [] then 0 else d[0] as nat + 1 + 2 * RunValue(d[1..])
  }

  lemma {:induction false} ValueOfDigits(n: nat)
    ensures RunValue(RunDigits(n)) == n
  {
    if n > 0 {
      ValueOfDigits((n - 1) / 2);
      assert RunDigits(n)[1..] == RunDigits((n - 1) / 2);
    }
  }

  lemma {:induction false} DigitsOfValue(d: seq<byte>)
    requires forall i :: 0 <= i < |d| ==> d[i] <= 1
    ensures RunDigits(RunValue(d)) == d
  {
    if d != [] {
      DigitsOfValue(d[1..]);
      LastDigit(RunValue(d[1..]), d[0]);
      assert d == [d[0]] + d[1..];
    }
  }

  lemma LastDigit(v: nat, b: byte)
    requires b <= 1
    ensures RunDigits(b as nat + 1 + 2 * v) == [b] + RunDigits(v)
  {
    var n: nat := b as nat + 2 * v;
    assert n % 2 == b && n / 2 == v;
  }

  function Pow2(k: nat): (p: nat)
    ensures p >= 1
  {
    if k == 0 then 1 else 2 * Pow2(k - 1)
  }

  lemma {:induction false} ValuePush(d: seq<byte>, b: byte)
    ensures RunValue(d + [b]) == RunValue(d) + (b as nat + 1) * Pow2(|d|)
  {
    if d == [] {
      assert (d + [b])[1..] == [];
    } else {
      ValuePush(d[1..], b);
      assert (d + [b])[1..] == d[1..] + [b];
      assert (b as nat + 1) * Pow2(|d|) == 2 * ((b as nat + 1) * Pow2(|d| - 1));
    }
  }

  // ---------------------------------------------------------------------------------------------
  // Runs
  // ---------------------------------------------------------------------------------------------

  /** Length of the leading run of bytes at most `top`. */
  function Leading(s: seq<byte>, top: byte): (k: nat)
    ensures k <= |s|
    ensures forall i :: 0 <= i < k ==> s[i] <= top
    ensures k < |s| ==> s[k] > top
  {
    if s == [] || s[0] > top then 0 else 1 + Leading(s[1..], top)
  }

  lemma {:induction false} LeadingOf(run: seq<byte>, rest: seq<byte>, top: byte)
    requires forall i :: 0 <= i < |run| ==> run[i] <= top
    requires rest != [] ==> rest[0] > top
    ensures Leading(run + rest, top) == |run|
  {
    if run == [] {
      assert run + rest == rest;
    } else {
      assert (run + rest)[1..] == run[1..] + rest;
      LeadingOf(run[1..], rest, top);
    }
  }

  /** How a format writes a nonzero rank and reads it back. */
  datatype Form = Plain | Escaped {

    /** The ranks the format can hold. */
    predicate Holds(v: byte) {
      this == Escaped || v < 255
    }

    function Symbol(v: byte): (z: seq<byte>)
      requires 0 < v && Holds(v)
      ensures 0 < |z| <= 2 && z[0] > 1
    {
      if this == Plain || v < 254 then [v + 1]
      else if v == 254 then [255, 2]
      else [255, 3]
    }

    /** The nonzero rank at the front of `z` and how many bytes it takes; `None` for a bad escape. */
    function Parse(z: seq<byte>): (r: Option<(byte, nat)>)
      requires z != [] && z[0] > 1
      ensures r.Some? ==> 0 < r.value.0 && 0 < r.value.1 <= |z| && Holds(r.value.0)
    {
      if this == Plain || z[0] < 255 then Some((z[0] - 1, 1))
      else if |z| < 2 then None
      else if z[1] == 2 then Some((254, 2))
      else if z[1] == 3 then Some((255, 2))
      else None
    }
  }

  lemma ParseSymbol(f: Form, v: byte, rest: seq<byte>)
    requires 0 < v && f.Holds(v)
    ensures f.Parse(f.Symbol(v) + rest) == Some((v, |f.Symbol(v)|))
  {
  }

  lemma SymbolParse(f: Form, z: seq<byte>)
    requires z != [] && z[0] > 1 && f.Parse(z).Some?
    ensures f.Symbol(f.Parse(z).value.0) == z[..f.Parse(z).value.1]
  {
  }

  ghost predicate Representable(f: Form, s: seq<byte>) {
    forall i :: 0 <= i < |s| ==> f.Holds(s[i])
  }

  function Encoded(f: Form, s: seq<byte>): (z: seq<byte>)
    requires Representable(f, s)
    decreases |s|
  {
    if s == [] then []
    else if s[0] == 0 then
      var k := Leading(s, 0);
      RunDigits(k) + Encoded(f, s[k..])
    else f.Symbol(s[0]) + Encoded(f, s[1..])
  }

  /** The ranks a stream stands for; `None` when an escape is malformed. */
  function Expanded(f: Form, z: seq<byte>): (s: Option<seq<byte>>)
    ensures s.Some? ==> Representable(f, s.value)
    decreases |z|
  {
    if z == [] then Some([])
    else if z[0] <= 1 then
      var k := Leading(z, 1);
      var rest := Expanded(f, z[k..]);
      if rest == None then None else Some(Repeat<byte>(0, RunValue(z[..k])) + rest.value)
    else
      var p := f.Parse(z);
      if p == None then None else
      var rest := Expanded(f, z[p.value.1..]);
      if rest == None then None else Some([p.value.0] + rest.value)
  }

  /** A stream that does not begin with a digit does not stand for ranks that begin with zero. */
  lemma EncodedHead(f: Form, s: seq<byte>)
    requires Representable(f, s)
    ensures s == [] <==> Encoded(f, s) == []
    ensures s != [] ==> (s[0] == 0 <==> Encoded(f, s)[0] <= 1)
  {
  }

  lemma ExpandedHead(f: Form, z: seq<byte>)
    requires Expanded(f, z).Some?
    ensures z == [] <==> Expanded(f, z).value == []
    ensures z != [] ==> (z[0] <= 1 <==> Expanded(f, z).value[0] == 0)
  {
  }

  lemma ExpandRun(f: Form, k: nat, rest: seq<byte>)
    requires k > 0 && Expanded(f, rest).Some? && (rest != [] ==> rest[0] > 1)
    ensures Expanded(f, RunDigits(k) + rest) == Some(Repeat<byte>(0, k) + Expanded(f, rest).value)
  {
    var z := RunDigits(k) + rest;
    LeadingOf(RunDigits(k), rest, 1);
    ValueOfDigits(k);
    assert z[..|RunDigits(k)|] == RunDigits(k) && z[|RunDigits(k)|..] == rest;
  }

  lemma ExpandSymbol(f: Form, v: byte, rest: seq<byte>)
    requires 0 < v && f.Holds(v) && Expanded(f, rest).Some?
    ensures Expanded(f, f.Symbol(v) + rest) == Some([v] + Expanded(f, rest).value)
  {
    ParseSymbol(f, v, rest);
    assert (f.Symbol(v) + rest)[|f.Symbol(v)|..] == rest;
  }

  /** Decoding undoes encoding on every representable rank sequence. */
  lemma {:induction false} ExpandEncoded(f: Form, s: seq<byte>)
    requires Representable(f, s)
    ensures Expanded(f, Encoded(f, s)) == Some(s)
    decreases |s|
  {
    if s == [] {
    } else if s[0] == 0 {
      ExpandEncoded(f, s[Leading(s, 0)..]);
      ExpandEncodedRun(f, s);
    } else {
      EncodedUnfold(f, s);
      hide Expanded, Encoded, Leading, Form.Symbol;
      ExpandEncoded(f, s[1..]);
      ExpandSymbol(f, s[0], Encoded(f, s[1..]));
      assert s == [s[0]] + s[1..];
    }
  }

  lemma ExpandEncodedRun(f: Form, s: seq<byte>)
    requires Representable(f, s) && s != [] && s[0] == 0
    requires Expanded(f, Encoded(f, s[Leading(s, 0)..])) == Some(s[Leading(s, 0)..])
    ensures Expanded(f, Encoded(f, s)) == Some(s)
  {
    var k := Leading(s, 0);
    EncodedHead(f, s[k..]);
    LeadingZeros(s);
    RunRestored(f, s, k, s[k..], Encoded(f, s[k..]));
  }

  lemma LeadingZeros(s: seq<byte>)
    ensures s == Repeat<byte>(0, Leading(s, 0)) + s[Leading(s, 0)..]
  {
  }

  lemma RunRestored(f: Form, s: seq<byte>, k: nat, rest: seq<byte>, z: seq<byte>)
    requires k > 0 && s == Repeat<byte>(0, k) + rest && Expanded(f, z) == Some(rest)
    requires z != [] ==> z[0] > 1
    ensures Expanded(f, RunDigits(k) + z) == Some(s)
  {
    ExpandRun(f, k, z);
  }

  lemma EncodeRun(f: Form, n: nat, rest: seq<byte>)
    requires n > 0 && Representable(f, rest) && (rest != [] ==> rest[0] > 0)
    ensures Representable(f, Repeat<byte>(0, n) + rest)
    ensures Encoded(f, Repeat<byte>(0, n) + rest) == RunDigits(n) + Encoded(f, rest)
  {
    var s := Repeat<byte>(0, n) + rest;
    LeadingOf(Repeat<byte>(0, n), rest, 0);
    assert s[n..] == rest;
  }

  lemma EncodeSymbol(f: Form, v: byte, rest: seq<byte>)
    requires 0 < v && f.Holds(v) && Representable(f, rest)
    ensures Representable(f, [v] + rest)
    ensures Encoded(f, [v] + rest) == f.Symbol(v) + Encoded(f, rest)
  {
    assert ([v] + rest)[1..] == rest;
  }

  /** Encoding undoes decoding on every accepted stream, so the form is a bijection. */
  lemma {:induction false} EncodeExpanded(f: Form, z: seq<byte>)
    requires Expanded(f, z).Some?
    ensures Encoded(f, Expanded(f, z).value) == z
    decreases |z|
  {
    if z == [] {
    } else if z[0] <= 1 {
      EncodeExpanded(f, z[Leading(z, 1)..]);
      EncodeExpandedRun(f, z);
    } else {
      EncodeExpanded(f, z[f.Parse(z).value.1..]);
      EncodeExpandedSymbol(f, z);
    }
  }

  lemma ExpandedRun(f: Form, z: seq<byte>)
    requires z != [] && z[0] <= 1 && Expanded(f, z[Leading(z, 1)..]).Some?
    ensures var k := Leading(z, 1);
            k > 0 && Expanded(f, z) == Some(Repeat<byte>(0, RunValue(z[..k])) + Expanded(f, z[k..]).value)
  {
  }

  lemma EncodeExpandedRun(f: Form, z: seq<byte>)
    requires z != [] && z[0] <= 1 && Expanded(f, z[Leading(z, 1)..]).Some?
    requires Encoded(f, Expanded(f, z[Leading(z, 1)..]).value) == z[Leading(z, 1)..]
    ensures Encoded(f, Expanded(f, z).value) == z
  {
    hide Expanded, Encoded, RunValue, Representable;
    var k := Leading(z, 1);
    ExpandedRun(f, z);
    ExpandedHead(f, z[k..]);
    assert z == z[..k] + z[k..];
    DigitsRestored(f, z, z[..k], z[k..], Expanded(f, z[k..]).value);
  }

  lemma DigitsRestored(f: Form, z: seq<byte>, d: seq<byte>, tail: seq<byte>, rest: seq<byte>)
    requires d != [] && z == d + tail && (forall i :: 0 <= i < |d| ==> d[i] <= 1)
    requires Representable(f, rest) && (rest != [] ==> rest[0] > 0) && Encoded(f, rest) == tail
    ensures Representable(f, Repeat<byte>(0, RunValue(d)) + rest)
    ensures Encoded(f, Repeat<byte>(0, RunValue(d)) + rest) == z
  {
    EncodeRun(f, RunValue(d), rest);
    DigitsOfValue(d);
  }

  lemma EncodeExpandedSymbol(f: Form, z: seq<byte>)
    requires z != [] && z[0] > 1 && f.Parse(z).Some? && Expanded(f, z[f.Parse(z).value.1..]).Some?
    requires Encoded(f, Expanded(f, z[f.Parse(z).value.1..]).value) == z[f.Parse(z).value.1..]
    ensures Encoded(f, Expanded(f, z).value) == z
  {
    var p := f.Parse(z).value;
    SymbolParse(f, z);
    EncodeSymbol(f, p.0, Expanded(f, z[p.1..]).value);
    assert z == z[..p.1] + z[p.1..];
  }

  // ---------------------------------------------------------------------------------------------
  // What a stream looks like
  // ---------------------------------------------------------------------------------------------

  /** A stream falls apart wherever its ranks do not continue a zero run. */
  lemma {:induction false} EncodedJoin(f: Form, a: seq<byte>, b: seq<byte>)
    requires Representable(f, a) && Representable(f, b) && (a != [] && b != [] ==> a[|a| - 1] != 0 || b[0] != 0)
    ensures Representable(f, a + b)
    ensures Encoded(f, a + b) == Encoded(f, a) + Encoded(f, b)
    decreases |a|
  {
    hide Encoded, RunDigits;
    if a == [] {
      EncodedNothing(f);
      assert a + b == b && [] + Encoded(f, b) == Encoded(f, b);
    } else if a[0] == 0 {
      LeadingZeros(a);
      var k := Leading(a, 0);
      EncodedJoin(f, a[k..], b);
      hide Leading;
      JoinRun(f, k, a[k..], b);
    } else {
      hide Leading;
      EncodedJoin(f, a[1..], b);
      assert a == [a[0]] + a[1..];
      JoinSymbol(f, a[0], a[1..], b);
    }
  }

  lemma EncodedNothing(f: Form)
    ensures Encoded(f, []) == []
  {
  }

  lemma JoinRun(f: Form, k: nat, rest: seq<byte>, b: seq<byte>)
    requires k > 0 && Representable(f, rest) && Representable(f, b) && Representable(f, rest + b)
    requires (rest != [] ==> rest[0] > 0) && (rest == [] && b != [] ==> b[0] > 0)
    requires Encoded(f, rest + b) == Encoded(f, rest) + Encoded(f, b)
    ensures var a := Repeat<byte>(0, k) + rest;
            Representable(f, a) && Representable(f, a + b) && Encoded(f, a + b) == Encoded(f, a) + Encoded(f, b)
  {
    hide Encoded, RunDigits, Representable;
    EncodeRun(f, k, rest);
    EncodeRun(f, k, rest + b);
    assert (Repeat<byte>(0, k) + rest) + b == Repeat<byte>(0, k) + (rest + b);
    Regroup(RunDigits(k), Encoded(f, rest), Encoded(f, b));
  }

  lemma JoinSymbol(f: Form, v: byte, rest: seq<byte>, b: seq<byte>)
    requires v > 0 && f.Holds(v) && Representable(f, rest) && Representable(f, b) && Representable(f, rest + b)
    requires Encoded(f, rest + b) == Encoded(f, rest) + Encoded(f, b)
    ensures var a := [v] + rest;
            Representable(f, a) && Representable(f, a + b) && Encoded(f, a + b) == Encoded(f, a) + Encoded(f, b)
  {
    hide Encoded, Representable, Form.Symbol;
    EncodeSymbol(f, v, rest);
    EncodeSymbol(f, v, rest + b);
    assert ([v] + rest) + b == [v] + (rest + b);
    Regroup(f.Symbol(v), Encoded(f, rest), Encoded(f, b));
  }

  /** A nonzero rank is one byte, itself plus one, but 254 and 255 in the escaped form are two. */
  lemma RankAppended(f: Form, a: seq<byte>, v: byte)
    requires Representable(f, a) && v > 0 && f.Holds(v)
    ensures Representable(f, a + [v])
    ensures Encoded(f, a + [v]) == Encoded(f, a) + if v < 254 || f == Plain then [v + 1] else [255, v - 252]
  {
    EncodedJoin(f, a, [v]);
    assert [v] == [v] + [];
    EncodeSymbol(f, v, []);
    assert f.Symbol(v) + [] == f.Symbol(v);
  }

  /** A zero run is the digits of its length: with the `i`-th counting once or twice 2^i they add up to it. */
  lemma RunAppended(f: Form, a: seq<byte>, n: nat) returns (d: seq<byte>)
    requires Representable(f, a) && n > 0 && (a != [] ==> a[|a| - 1] != 0)
    ensures Representable(f, a + Repeat<byte>(0, n))
    ensures Encoded(f, a + Repeat<byte>(0, n)) == Encoded(f, a) + d
    ensures (forall i :: 0 <= i < |d| ==> d[i] <= 1) && DigitSum(d) == n
  {
    d := RunDigits(n);
    var zeros := Repeat<byte>(0, n);
    EncodedJoin(f, a, zeros);
    assert zeros == zeros + [];
    EncodeRun(f, n, []);
    assert d + [] == d;
    ValueOfDigits(n);
    ValueIsDigitSum(d);
  }

  /** `(d[0] + 1) + 2 * (d[1] + 1) + 4 * (d[2] + 1) + ...` */
  function DigitSum(d: seq<byte>): nat {
    if d == [] then 0 else DigitSum(d[..|d| - 1]) + (d[|d| - 1] as nat + 1) * Pow2(|d| - 1)
  }

  lemma {:induction false} ValueIsDigitSum(d: seq<byte>)
    ensures RunValue(d) == DigitSum(d)
  {
    if d != [] {
      ValueIsDigitSum(d[..|d| - 1]);
      ValuePush(d[..|d| - 1], d[|d| - 1]);
      assert d == d[..|d| - 1] + [d[|d| - 1]];
    }
  }

  /** Every byte string is a stream of the plain form. */
  lemma {:induction false} PlainAcceptsAll(z: seq<byte>)
    ensures Expanded(Plain, z).Some?
    decreases |z|
  {
    if z == [] {
    } else if z[0] <= 1 {
      PlainAcceptsAll(z[Leading(z, 1)..]);
    } else {
      PlainAcceptsAll(z[1..]);
    }
  }

  /** The plain form never lengthens; the escaped form at most doubles. */
  lemma {:induction false} EncodedLength(f: Form, s: seq<byte>)
    requires Representable(f, s)
    ensures |Encoded(f, s)| <= if f == Plain then |s| else 2 * |s|
    decreases |s|
  {
    if s == [] {
    } else if s[0] == 0 {
      EncodedLength(f, s[Leading(s, 0)..]);
    } else {
      EncodedLength(f, s[1..]);
    }
  }

  // ---------------------------------------------------------------------------------------------
  // The methods
  // ---------------------------------------------------------------------------------------------

  /** The zero run at `i`: its length is counted, then written digit by digit. */
  method EncodeRunLength(output: seq<byte>, run: nat) returns (out: seq<byte>)
    ensures out == output + RunDigits(run)
  {
    out := output;
    var n := run;
    while n > 0
      invariant out + RunDigits(n) == output + RunDigits(run)
    {
      n := n - 1;
      assert RunDigits(n + 1) == [n % 2] + RunDigits(n / 2);
      assert out + ([n % 2] + RunDigits(n / 2)) == (out + [n % 2]) + RunDigits(n / 2);
      out := out + [n % 2];
      n := n / 2;
    }
  }

  method CountRun(s: seq<byte>, start: nat) returns (i: nat, run: nat)
    requires start <= |s| < TWO32
    ensures run == Leading(s[start..], 0) < TWO32 && i == start + run
  {
    i, run := start, 0;
    while i < |s| && s[i] == 0
      invariant start <= i <= |s| && i == start + run
      invariant Leading(s[start..], 0) == run + Leading(s[i..], 0)
    {
      assert s[i..][1..] == s[i + 1..];
      run := run + 1;
      i := i + 1;
    }
  }

  /** `rle_encode` and `rle_encode_escaped`; the plain form refuses rank 255. Run lengths are 32-bit. */
  method Encode(f: Form, ranks: seq<byte>) returns (r: Option<seq<byte>>)
    requires |ranks| < TWO32
    ensures r == if Representable(f, ranks) then Some(Encoded(f, ranks)) else None
  {
    if f == Plain && 255 in ranks {
      return None;
    }
    var output: seq<byte> := [];
    var i := 0;
    assert ranks[0..] == ranks;
    while i < |ranks|
      invariant i <= |ranks| && Representable(f, ranks[i..])
      invariant output + Encoded(f, ranks[i..]) == Encoded(f, ranks)
      decreases |ranks| - i
    {
      i, output := EncodeItem(f, ranks, i, output);
    }
    assert output + [] == output;
    return Some(output);
  }

  /** One zero run or one nonzero rank. */
  method EncodeItem(f: Form, ranks: seq<byte>, i: nat, output: seq<byte>) returns (j: nat, out: seq<byte>)
    requires i < |ranks| < TWO32 && Representable(f, ranks[i..])
    ensures i < j <= |ranks| && Representable(f, ranks[j..])
    ensures out + Encoded(f, ranks[j..]) == output + Encoded(f, ranks[i..])
  {
    hide Encoded, RunDigits, Leading, Representable, Form.Symbol, Form.Holds;
    EncodedStep(f, ranks, i, output);
    if ranks[i] == 0 {
      var run;
      j, run := CountRun(ranks, i);
      out := EncodeRunLength(output, run);
    } else {
      out := output + f.Symbol(ranks[i]);
      j := i + 1;
    }
  }

  lemma EncodedStep(f: Form, s: seq<byte>, i: nat, done: seq<byte>)
    requires i < |s| && Representable(f, s[i..])
    ensures f.Holds(s[i])
    ensures var k := Leading(s[i..], 0);
            if s[i] == 0 then
              k > 0 && Representable(f, s[i + k..])
                  && done + Encoded(f, s[i..]) == (done + RunDigits(k)) + Encoded(f, s[i + k..])
            else
              Representable(f, s[i + 1..])
                  && done + Encoded(f, s[i..]) == (done + f.Symbol(s[i])) + Encoded(f, s[i + 1..])
  {
    hide RunDigits, Leading, Encoded, Form.Symbol;
    var rest, k := s[i..], Leading(s[i..], 0);
    EncodedUnfold(f, rest);
    if s[i] == 0 {
      assert rest[k..] == s[i + k..];
      Regroup(done, RunDigits(k), Encoded(f, s[i + k..]));
    } else {
      assert rest[1..] == s[i + 1..];
      Regroup(done, f.Symbol(s[i]), Encoded(f, s[i + 1..]));
    }
  }

  lemma Regroup(a: seq<byte>, b: seq<byte>, c: seq<byte>)
    ensures a + (b + c) == (a + b) + c
  {
  }

  lemma EncodedUnfold(f: Form, s: seq<byte>)
    requires s != [] && Representable(f, s)
    ensures f.Holds(s[0])
    ensures var k := Leading(s, 0);
            if s[0] == 0 then k > 0 && Representable(f, s[k..]) && Encoded(f, s) == RunDigits(k) + Encoded(f, s[k..])
            else Representable(f, s[1..]) && Encoded(f, s) == f.Symbol(s[0]) + Encoded(f, s[1..])
  {
  }

  /** Largest `u64`. */
  const MAX64: nat := 0xFFFF_FFFF_FFFF_FFFF

  function Capped(n: nat): (c: nat)
    ensures c <= MAX64 && (n <= MAX64 ==> c == n) && (n > MAX64 ==> c == MAX64)
  {
    if n <= MAX64 then n else MAX64
  }

  /** A run of digits, read with saturating 64-bit arithmetic. */
  method ReadRun(z: seq<byte>, start: nat) returns (i: nat, run: nat)
    requires start <= |z|
    ensures i == start + Leading(z[start..], 1) && run == Capped(RunValue(z[start..i]))
  {
    hide RunRead, Capped;
    i, run := start, 0;
    var power: nat := 1;
    RunReadStart(z, start);
    while i < |z| && z[i] <= 1
      invariant start <= i <= |z| && RunRead(z, start, i, run, power)
    {
      RunReadStep(z, start, i, run, power);
      run := Capped(run + Capped((z[i] as nat + 1) * power));
      power := Capped(power * 2);
      i := i + 1;
    }
    RunReadEnd(z, start, i, run, power);
  }

  /** The digits up to `i` have been read. */
  ghost predicate RunRead(z: seq<byte>, start: nat, i: nat, run: nat, power: nat) {
    && start <= i <= |z|
    && Leading(z[start..], 1) == i - start + Leading(z[i..], 1)
    && run == Capped(RunValue(z[start..i])) && power == Capped(Pow2(i - start))
  }

  lemma RunReadStart(z: seq<byte>, start: nat)
    requires start <= |z|
    ensures RunRead(z, start, start, 0, 1)
  {
    assert z[start..start] == [];
    assert RunValue([]) == 0 && Pow2(0) == 1;
  }

  lemma RunReadStep(z: seq<byte>, start: nat, i: nat, run: nat, power: nat)
    requires RunRead(z, start, i, run, power) && i < |z| && z[i] <= 1
    ensures RunRead(z, start, i + 1, Capped(run + Capped((z[i] as nat + 1) * power)), Capped(power * 2))
  {
    ReadStep(z, start, i, run, power);
    hide Capped, RunValue, Pow2;
    assert z[i..][1..] == z[i + 1..];
  }

  lemma RunReadEnd(z: seq<byte>, start: nat, i: nat, run: nat, power: nat)
    requires RunRead(z, start, i, run, power) && (i == |z| || z[i] > 1)
    ensures i == start + Leading(z[start..], 1) && run == Capped(RunValue(z[start..i]))
  {
  }

  /** Saturating the running sum and the power separately saturates the value. */
  lemma ReadStep(z: seq<byte>, start: nat, i: nat, run: nat, power: nat)
    requires start <= i < |z| && z[i] <= 1
    requires run == Capped(RunValue(z[start..i])) && power == Capped(Pow2(i - start))
    ensures Capped(run + Capped((z[i] as nat + 1) * power)) == Capped(RunValue(z[start..i + 1]))
    ensures Capped(power * 2) == Capped(Pow2(i + 1 - start))
  {
    assert z[start..i + 1] == z[start..i] + [z[i]];
    ValuePush(z[start..i], z[i]);
    var p := Pow2(i - start);
    if z[i] == 0 {
      assert (z[i] as nat + 1) * power == power && (z[i] as nat + 1) * p == p;
    } else {
      assert (z[i] as nat + 1) * power == 2 * power && (z[i] as nat + 1) * p == 2 * p;
    }
  }

  /**
   `rle_decode` and `rle_decode_escaped`, total on every input: a stream decodes for exactly one
   expected size, the number of ranks it stands for.
   */
  method Decode(f: Form, z: seq<byte>, expectedSize: nat) returns (r: Result<seq<byte>>)
    requires expectedSize < MAX64
    ensures r == match Expanded(f, z)
                 case None => Err(Decompression)
                 case Some(s) => if |s| == expectedSize then Ok(s) else Err(Decompression)
  {
    var output: seq<byte> := [];
    var i := 0;
    assert z[0..] == z;
    ghost var goal := Expanded(f, z);
    AfterNothing(goal);
    while i < |z|
      invariant i <= |z| && |output| <= expectedSize
      invariant goal == After(output, Expanded(f, z[i..]))
      decreases |z| - i
    {
      var ok;
      ok, i, output := DecodeItem(f, z, i, output, expectedSize);
      if !ok {
        return Err(Decompression);
      }
    }
    if |output| != expectedSize {
      return Err(Decompression);
    }
    assert output + [] == output;
    return Ok(output);
  }

  /** One item has been decoded, or shown to make the stream unacceptable for this size. */
  ghost predicate ItemDone(f: Form, z: seq<byte>, i: nat, output: seq<byte>, expectedSize: nat, ok: bool, j: nat,
                           out: seq<byte>)
    requires i < |z|
  {
    && i <= j <= |z|
    && var all := After(output, Expanded(f, z[i..]));
       if ok then i < j && |out| <= expectedSize && all == After(out, Expanded(f, z[j..]))
       else all == None || |all.value| > expectedSize
  }

  /** One digit run or one symbol; refuses a bad escape and anything past the expected size. */
  method DecodeItem(f: Form, z: seq<byte>, i: nat, output: seq<byte>, expectedSize: nat)
    returns (ok: bool, j: nat, out: seq<byte>)
    requires i < |z| && |output| <= expectedSize < MAX64
    ensures ItemDone(f, z, i, output, expectedSize, ok, j, out)
  {
    if z[i] <= 1 {
      ok, j, out := DecodeRun(f, z, i, output, expectedSize);
    } else {
      ok, j, out := DecodeSymbol(f, z, i, output, expectedSize);
    }
  }

  method DecodeRun(f: Form, z: seq<byte>, i: nat, output: seq<byte>, expectedSize: nat)
    returns (ok: bool, j: nat, out: seq<byte>)
    requires i < |z| && z[i] <= 1 && |output| <= expectedSize < MAX64
    ensures ItemDone(f, z, i, output, expectedSize, ok, j, out)
  {
    var next, run := ReadRun(z, i);
    RunStep(f, z, i, output);
    if run > expectedSize - |output| {
      return false, i, output;
    }
    return true, next, output + Repeat<byte>(0, run);
  }

  method DecodeSymbol(f: Form, z: seq<byte>, i: nat, output: seq<byte>, expectedSize: nat)
    returns (ok: bool, j: nat, out: seq<byte>)
    requires i < |z| && z[i] > 1 && |output| <= expectedSize
    ensures ItemDone(f, z, i, output, expectedSize, ok, j, out)
  {
    ok, j, out := false, i, output;
    SymbolStep(f, z, i, output);
    if f == Escaped && z[i] == 255 {
      if i + 1 >= |z| || |output| >= expectedSize {
        return;
      }
      if z[i + 1] == 2 {
        return true, i + 2, output + [254];
      } else if z[i + 1] == 3 {
        return true, i + 2, output + [255];
      }
    } else if |output| < expectedSize {
      return true, i + 1, output + [z[i] - 1];
    }
  }

  /** What remains to be decoded, put behind what has been. */
  function After(done: seq<byte>, rest: Option<seq<byte>>): (r: Option<seq<byte>>)
    ensures r.Some? ==> |r.value| >= |done|
  {
    if rest == None then None else Some(done + rest.value)
  }

  lemma AfterNothing(rest: Option<seq<byte>>)
    ensures After([], rest) == rest
  {
    if rest.Some? {
      assert [] + rest.value == rest.value;
    }
  }

  lemma RunStep(f: Form, z: seq<byte>, i: nat, done: seq<byte>)
    requires i < |z| && z[i] <= 1
    ensures var k := Leading(z[i..], 1);
            && k > 0
            && var zeros := Repeat<byte>(0, RunValue(z[i..i + k]));
               After(done, Expanded(f, z[i..])) == After(done + zeros, Expanded(f, z[i + k..]))
  {
    var k := Leading(z[i..], 1);
    assert z[i..][..k] == z[i..i + k] && z[i..][k..] == z[i + k..];
    AfterBoth(done, Repeat<byte>(0, RunValue(z[i..i + k])), Expanded(f, z[i + k..]), Expanded(f, z[i..]));
  }

  lemma AfterBoth(done: seq<byte>, first: seq<byte>, rest: Option<seq<byte>>, all: Option<seq<byte>>)
    requires all == if rest == None then None else Some(first + rest.value)
    ensures After(done, all) == After(done + first, rest)
  {
    if rest.Some? {
      assert done + (first + rest.value) == (done + first) + rest.value;
    }
  }

  lemma SymbolStep(f: Form, z: seq<byte>, i: nat, done: seq<byte>)
    requires i < |z| && z[i] > 1
    ensures var p := f.Parse(z[i..]);
            After(done, Expanded(f, z[i..])) ==
            if p == None then None else After(done + [p.value.0], Expanded(f, z[i + p.value.1..]))
  {
    var p := f.Parse(z[i..]);
    if p.Some? {
      assert z[i..][p.value.1..] == z[i + p.value.1..];
      AfterBoth(done, [p.value.0], Expanded(f, z[i + p.value.1..]), Expanded(f, z[i..]));
    }
  }
}
