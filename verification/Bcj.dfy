/** Reversible x86 branch normalisation (`coding/bcj.rs`). */
module Bcj {
  import opened Bytes

  predicate IsElf(d: seq<byte>) {
    && |d| >= 20 && d[..4] == [0x7F, 0x45, 0x4C, 0x46]
    && if d[5] == 1 then (d[18] == 3 || d[18] == 62) && d[19] == 0
       else d[5] == 2 && d[18] == 0 && (d[19] == 3 || d[19] == 62)
  }

  predicate IsPe(d: seq<byte>) {
    && |d| >= 0x40 && d[..2] == [0x4D, 0x5A]
    && var at := FromLe32(d[0x3C..0x40]);
       && at + 6 <= |d|
       && d[at..at + 4] == [0x50, 0x45, 0, 0]
       && (d[at + 4..at + 6] == [0x4C, 0x01] || d[at + 4..at + 6] == [0x64, 0x86])
  }

  predicate IsMachO(d: seq<byte>) {
    && |d| >= 8
    && if d[..4] == [0xCE, 0xFA, 0xED, 0xFE] || d[..4] == [0xCF, 0xFA, 0xED, 0xFE] then
         d[4..8] == [7, 0, 0, 0] || d[4..8] == [7, 0, 0, 1]
       else if d[..4] == [0xFE, 0xED, 0xFA, 0xCE] || d[..4] == [0xFE, 0xED, 0xFA, 0xCF] then
         d[4..8] == [0, 0, 0, 7] || d[4..8] == [1, 0, 0, 7]
       else false
  }

  predicate IsX86Executable(d: seq<byte>) {
    IsElf(d) || IsPe(d) || IsMachO(d)
  }

  /** A 16-bit field at `at`, in the order the file states. */
  function Field16(d: seq<byte>, at: nat, little: bool): nat
    requires at + 2 <= |d|
  {
    if little then d[at] as nat + 256 * d[at + 1] as nat else 256 * d[at] as nat + d[at + 1] as nat
  }

  function Field32(d: seq<byte>, at: nat, little: bool): nat
    requires at + 4 <= |d|
  {
    if little then Field16(d, at, true) + 65536 * Field16(d, at + 2, true)
    else 65536 * Field16(d, at, false) + Field16(d, at + 2, false)
  }

  /** ELF: machine 3 or 62 in the byte order of byte 5. */
  ghost predicate ElfFields(d: seq<byte>) {
    && |d| >= 20
    && Field32(d, 0, false) == 0x7F45_4C46
    && exists little: bool :: d[5] == (if little then 1 else 2) && Field16(d, 18, little) in {3, 62}
  }

  /** PE: the header the file points to says machine 0x14C or 0x8664. */
  ghost predicate PeFields(d: seq<byte>) {
    && |d| >= 64
    && Field16(d, 0, false) == 0x4D5A
    && var at := Field32(d, 60, true);
       at + 6 <= |d| && Field32(d, at, false) == 0x5045_0000 && Field16(d, at + 4, true) in {0x014C, 0x8664}
  }

  /** Mach-O: the magic number in either byte order, and in that order a processor type of 7 or 0x0100_0007. */
  ghost predicate MachOFields(d: seq<byte>) {
    && |d| >= 8
    && exists little: bool ::
         Field32(d, 0, little) in {0xFEED_FACE, 0xFEED_FACF} && Field32(d, 4, little) in {7, 0x0100_0007}
  }

  lemma ElfByFields(d: seq<byte>)
    ensures IsElf(d) <==> ElfFields(d)
  {
    if |d| >= 20 {
      assert d[..4] == [d[0], d[1], d[2], d[3]];
      assert Field16(d, 18, true) in {3, 62} <==> (d[18] == 3 || d[18] == 62) && d[19] == 0;
      assert Field16(d, 18, false) in {3, 62} <==> d[18] == 0 && (d[19] == 3 || d[19] == 62);
    }
  }

  lemma PeByFields(d: seq<byte>)
    ensures IsPe(d) <==> PeFields(d)
  {
    if |d| >= 64 {
      assert d[..2] == [d[0], d[1]];
      var at := Field32(d, 60, true);
      assert FromLe32(d[0x3C..0x40]) == at;
      if at + 6 <= |d| {
        assert d[at..at + 4] == [d[at], d[at + 1], d[at + 2], d[at + 3]];
        assert d[at + 4..at + 6] == [d[at + 4], d[at + 5]];
      }
    }
  }

  lemma MachOByFields(d: seq<byte>)
    ensures IsMachO(d) <==> MachOFields(d)
  {
    if |d| >= 8 {
      assert d[..4] == [d[0], d[1], d[2], d[3]] && d[4..8] == [d[4], d[5], d[6], d[7]];
      MachOInOrder(d, true);
      MachOInOrder(d, false);
    }
  }

  /** What is transformed at all, by the fields of the three headers. */
  lemma RecognisedByFields(d: seq<byte>)
    ensures IsX86Executable(d) <==> ElfFields(d) || PeFields(d) || MachOFields(d)
  {
    hide IsElf, IsPe, IsMachO, ElfFields, PeFields, MachOFields;
    ElfByFields(d);
    PeByFields(d);
    MachOByFields(d);
  }

  lemma MachOInOrder(d: seq<byte>, little: bool)
    requires |d| >= 8
    ensures var m := if little then [d[3], d[2], d[1], d[0]] else [d[0], d[1], d[2], d[3]];
            Field32(d, 0, little) in {0xFEED_FACE, 0xFEED_FACF}
            <==> m == [0xFE, 0xED, 0xFA, 0xCE] || m == [0xFE, 0xED, 0xFA, 0xCF]
    ensures var c := if little then [d[7], d[6], d[5], d[4]] else [d[4], d[5], d[6], d[7]];
            Field32(d, 4, little) in {7, 0x0100_0007} <==> c == [0, 0, 0, 7] || c == [1, 0, 0, 7]
  {
  }

  predicate IsBranch(b: byte) {
    b == 0xE8 || b == 0xE9
  }

  /** The operand made absolute or relative again, in wrapping 32-bit arithmetic. */
  function Normalized(operand: nat, position: nat, encode: bool): (n: nat)
    ensures n < TWO32
  {
    var end := (position + 5) % TWO32;
    if encode then (operand + end) % TWO32 else (operand + TWO32 - end) % TWO32
  }

  lemma NormalizedBack(operand: nat, position: nat, encode: bool)
    requires operand < TWO32
    ensures Normalized(Normalized(operand, position, encode), position, !encode) == operand
  {
    var end := (position + 5) % TWO32;
    AddTakeOff(operand, end);
  }

  lemma AddTakeOff(x: nat, end: nat)
    requires x < TWO32 && end < TWO32
    ensures ((x + end) % TWO32 + TWO32 - end) % TWO32 == x
    ensures ((x + TWO32 - end) % TWO32 + end) % TWO32 == x
  {
    assert (x + end) % TWO32 == if x + end < TWO32 then x + end else x + end - TWO32;
    assert (x + TWO32 - end) % TWO32 == if x < end then x + TWO32 - end else x - end;
  }

  /** The scan from `position` on; `s` is what lies there. */
  function Transformed(s: seq<byte>, position: nat, encode: bool): (t: seq<byte>)
    ensures |t| == |s|
    decreases |s|
  {
    if |s| < 5 then s
    else if IsBranch(s[0]) then
      [s[0]] + ToLe32(Normalized(FromLe32(s[1..5]), position, encode)) + Transformed(s[5..], position + 5, encode)
    else [s[0]] + Transformed(s[1..], position + 1, encode)
  }

  /**
   Each direction undoes the other on every byte string, even where rewritten operands contain opcode
   bytes: both scans stop at the same positions.
   */
  lemma {:induction false} SelfInverse(s: seq<byte>, position: nat, encode: bool)
    ensures Transformed(Transformed(s, position, encode), position, !encode) == s
    decreases |s|
  {
    if |s| < 5 {
    } else if IsBranch(s[0]) {
      var operand := FromLe32(s[1..5]);
      var n := Normalized(operand, position, encode);
      var rest := Transformed(s[5..], position + 5, encode);
      SelfInverse(s[5..], position + 5, encode);
      NormalizedBack(operand, position, encode);
      Le32RoundTrip(n);
      Le32Unique(s[1..5]);
      var t := [s[0]] + ToLe32(n) + rest;
      assert t[1..5] == ToLe32(n) && t[5..] == rest;
      assert s == [s[0]] + s[1..5] + s[5..];
    } else {
      SelfInverse(s[1..], position + 1, encode);
      var t := [s[0]] + Transformed(s[1..], position + 1, encode);
      assert t[1..] == Transformed(s[1..], position + 1, encode);
      assert s == [s[0]] + s[1..];
    }
  }

  // ---------------------------------------------------------------------------------------------
  // What is rewritten
  // ---------------------------------------------------------------------------------------------

  /** A position from `at` on where a call or jump opcode has room for its operand. */
  ghost predicate IsOpcode(d: seq<byte>, at: nat, p: nat) {
    at <= p && p + 5 <= |d| && (d[p] == 0xE8 || d[p] == 0xE9)
  }

  ghost predicate Inside(ps: seq<nat>, p: nat) {
    exists i :: 0 <= i < |ps| && ps[i] <= p < ps[i] + 5
  }

  /** The instructions the scan stops at: opcodes that do not overlap, and every other opcode lies inside one. */
  ghost predicate IsScan(d: seq<byte>, at: nat, ps: seq<nat>) {
    && (forall i :: 0 <= i < |ps| ==> IsOpcode(d, at, ps[i]))
    && (forall i, j :: 0 <= i < j < |ps| ==> ps[i] + 5 <= ps[j])
    && (forall p: nat :: IsOpcode(d, at, p) ==> Inside(ps, p))
  }

  ghost function Stops(d: seq<byte>, at: nat): (ps: seq<nat>)
    decreases |d| - at
  {
    if at + 5 > |d| then []
    else if IsOpcode(d, at, at) then [at] + Stops(d, at + 5)
    else Stops(d, at + 1)
  }

  lemma {:induction false} StopsAreScan(d: seq<byte>, at: nat)
    ensures IsScan(d, at, Stops(d, at))
    decreases |d| - at
  {
    if at + 5 <= |d| {
      hide IsScan, Inside;
      if IsOpcode(d, at, at) {
        StopsAreScan(d, at + 5);
        ScanStop(d, at, Stops(d, at + 5));
      } else {
        StopsAreScan(d, at + 1);
        ScanSkip(d, at, Stops(d, at + 1));
      }
    }
  }

  lemma ScanStop(d: seq<byte>, at: nat, ps: seq<nat>)
    requires IsScan(d, at + 5, ps) && IsOpcode(d, at, at)
    ensures IsScan(d, at, [at] + ps)
  {
    hide Inside;
    var all := [at] + ps;
    forall i | 0 <= i < |all|
      ensures IsOpcode(d, at, all[i])
    {
      assert i > 0 ==> IsOpcode(d, at + 5, ps[i - 1]);
    }
    forall i, j | 0 <= i < j < |all|
      ensures all[i] + 5 <= all[j]
    {
      assert IsOpcode(d, at + 5, ps[j - 1]);
    }
    forall p: nat | IsOpcode(d, at, p)
      ensures Inside(all, p)
    {
      assert p >= at + 5 ==> IsOpcode(d, at + 5, p);
      StopCovers(at, ps, p);
    }
  }

  lemma StopCovers(at: nat, ps: seq<nat>, p: nat)
    requires at <= p && (p < at + 5 || Inside(ps, p))
    ensures Inside([at] + ps, p)
  {
    var all := [at] + ps;
    if p < at + 5 {
      assert all[0] <= p < all[0] + 5;
    } else {
      var i :| 0 <= i < |ps| && ps[i] <= p < ps[i] + 5;
      assert all[i + 1] == ps[i];
    }
  }

  lemma ScanSkip(d: seq<byte>, at: nat, ps: seq<nat>)
    requires IsScan(d, at + 1, ps) && !IsOpcode(d, at, at)
    ensures IsScan(d, at, ps)
  {
    hide Inside;
    assert forall i :: 0 <= i < |ps| ==> IsOpcode(d, at + 1, ps[i]);
    forall p: nat | IsOpcode(d, at, p)
      ensures Inside(ps, p)
    {
      assert IsOpcode(d, at + 1, p);
    }
  }

  /** The bytes leave one choice of instructions. */
  lemma {:induction false} ScanUnique(d: seq<byte>, at: nat, ps: seq<nat>)
    requires IsScan(d, at, ps)
    ensures ps == Stops(d, at)
    decreases |d| - at
  {
    if at + 5 > |d| {
      assert ps != [] ==> IsOpcode(d, at, ps[0]);
    } else if IsOpcode(d, at, at) {
      ScanTail(d, at, ps);
      ScanUnique(d, at + 5, ps[1..]);
    } else {
      ScanOn(d, at, ps);
      ScanUnique(d, at + 1, ps);
    }
  }

  lemma FirstStop(d: seq<byte>, at: nat, ps: seq<nat>)
    requires IsScan(d, at, ps) && IsOpcode(d, at, at)
    ensures ps != [] && ps[0] == at
  {
    assert Inside(ps, at);
    var i :| 0 <= i < |ps| && ps[i] <= at < ps[i] + 5;
    assert IsOpcode(d, at, ps[i]) && IsOpcode(d, at, ps[0]);
  }

  lemma TailCovers(ps: seq<nat>, p: nat)
    requires ps != [] && ps[0] + 5 <= p && Inside(ps, p)
    ensures Inside(ps[1..], p)
  {
    var j :| 0 <= j < |ps| && ps[j] <= p < ps[j] + 5;
    assert ps[1..][j - 1] == ps[j];
  }

  lemma ScanTail(d: seq<byte>, at: nat, ps: seq<nat>)
    requires IsScan(d, at, ps) && IsOpcode(d, at, at)
    ensures ps != [] && ps == [at] + ps[1..] && IsScan(d, at + 5, ps[1..])
  {
    FirstStop(d, at, ps);
    hide Inside;
    var rest := ps[1..];
    forall p: nat | IsOpcode(d, at + 5, p)
      ensures Inside(rest, p)
    {
      assert IsOpcode(d, at, p);
      TailCovers(ps, p);
    }
    forall k | 0 <= k < |rest|
      ensures IsOpcode(d, at + 5, rest[k])
    {
      assert rest[k] == ps[k + 1] && IsOpcode(d, at, ps[k + 1]);
    }
  }

  lemma ScanOn(d: seq<byte>, at: nat, ps: seq<nat>)
    requires IsScan(d, at, ps) && !IsOpcode(d, at, at)
    ensures IsScan(d, at + 1, ps)
  {
    hide Inside;
    forall i | 0 <= i < |ps|
      ensures IsOpcode(d, at + 1, ps[i])
    {
      assert IsOpcode(d, at, ps[i]);
    }
    forall p: nat | IsOpcode(d, at + 1, p)
      ensures Inside(ps, p)
    {
      assert IsOpcode(d, at, p);
    }
  }

  /** The operand of the instruction at `p`. */
  function OperandAt(d: seq<byte>, p: nat): nat
    requires p + 5 <= |d|
  {
    FromLe32(d[p + 1..p + 5])
  }

  /** The operand at `p` has the end of its instruction added, or taken off again, modulo 2^32. */
  ghost predicate RewrittenAt(d: seq<byte>, t: seq<byte>, p: nat, encode: bool) {
    && p + 5 <= |d| == |t|
    && OperandAt(t, p) == (if encode then OperandAt(d, p) + p + 5 else OperandAt(d, p) - p - 5) % 0x1_0000_0000
  }

  ghost predicate OutsideOperands(ps: seq<nat>, k: nat) {
    forall i :: 0 <= i < |ps| ==> !(ps[i] < k < ps[i] + 5)
  }

  /** At every stop the operand is rewritten; nothing else changes. */
  ghost predicate IsRewriting(d: seq<byte>, t: seq<byte>, ps: seq<nat>, encode: bool) {
    && |t| == |d|
    && (forall i :: 0 <= i < |ps| ==> RewrittenAt(d, t, ps[i], encode))
    && (forall k :: 0 <= k < |d| && OutsideOperands(ps, k) ==> t[k] == d[k])
  }

  lemma {:induction false} StopsAreRewritten(d: seq<byte>, at: nat, encode: bool)
    requires at <= |d|
    ensures IsRewriting(d, d[..at] + Transformed(d[at..], at, encode), Stops(d, at), encode)
    decreases |d| - at
  {
    hide IsRewriting, Transformed, FromLe32, ToLe32, Normalized;
    if at + 5 > |d| {
      StopAtEnd(d, at, encode);
      NothingRewritten(d, encode);
    } else if IsOpcode(d, at, at) {
      StopsAreRewritten(d, at + 5, encode);
      StopsAreScan(d, at + 5);
      var u := d[..at + 5] + Transformed(d[at + 5..], at + 5, encode);
      OperandReplaced(d, u, at, encode);
      OneMoreRewritten(d, u, d[..at] + Transformed(d[at..], at, encode), at, Stops(d, at + 5), encode);
    } else {
      StopsAreRewritten(d, at + 1, encode);
      StepOver(d, at, encode);
    }
  }

  lemma NothingRewritten(d: seq<byte>, encode: bool)
    ensures IsRewriting(d, d, [], encode)
  {
    assert forall k :: OutsideOperands([], k);
  }

  lemma OperandReplaced(d: seq<byte>, u: seq<byte>, at: nat, encode: bool)
    requires at + 5 <= |d| && IsBranch(d[at]) && u == d[..at + 5] + Transformed(d[at + 5..], at + 5, encode)
    ensures d[..at] + Transformed(d[at..], at, encode)
            == u[..at + 1] + ToLe32(Normalized(OperandAt(d, at), at, encode)) + u[at + 5..]
  {
    hide Transformed, FromLe32, ToLe32, Normalized;
    RewriteStep(d[at..], at, encode);
    assert d[at..][1..5] == d[at + 1..at + 5] && d[at..][5..] == d[at + 5..];
  }

  lemma OneMoreRewritten(d: seq<byte>, u: seq<byte>, t: seq<byte>, at: nat, ps: seq<nat>, encode: bool)
    requires at + 5 <= |d| && IsRewriting(d, u, ps, encode) && forall i :: 0 <= i < |ps| ==> at + 5 <= ps[i]
    requires t == u[..at + 1] + ToLe32(Normalized(OperandAt(d, at), at, encode)) + u[at + 5..]
    ensures IsRewriting(d, t, [at] + ps, encode)
  {
    var all := [at] + ps;
    FirstRewritten(d, t, at, encode);
    forall i | 0 <= i < |all|
      ensures RewrittenAt(d, t, all[i], encode)
    {
      if i > 0 {
        assert RewrittenAt(d, u, ps[i - 1], encode);
        assert t[ps[i - 1] + 1..ps[i - 1] + 5] == u[ps[i - 1] + 1..ps[i - 1] + 5];
      }
    }
    forall k | 0 <= k < |d| && OutsideOperands(all, k)
      ensures t[k] == d[k]
    {
      assert !(all[0] < k < all[0] + 5);
      OutsideFewer(at, ps, k);
      assert t[k] == u[k];
    }
  }

  lemma OutsideFewer(at: nat, ps: seq<nat>, k: nat)
    requires OutsideOperands([at] + ps, k)
    ensures OutsideOperands(ps, k)
  {
    forall i | 0 <= i < |ps|
      ensures !(ps[i] < k < ps[i] + 5)
    {
      assert ([at] + ps)[i + 1] == ps[i];
    }
  }

  lemma FirstRewritten(d: seq<byte>, t: seq<byte>, at: nat, encode: bool)
    requires at + 5 <= |d| == |t| && t[at + 1..at + 5] == ToLe32(Normalized(OperandAt(d, at), at, encode))
    ensures RewrittenAt(d, t, at, encode)
  {
    hide ToLe32, FromLe32, Normalized;
    var n := Normalized(OperandAt(d, at), at, encode);
    NormalizedIs(OperandAt(d, at), at, encode);
    Le32RoundTrip(n);
    assert OperandAt(t, at) == n;
  }

  lemma NormalizedIs(operand: nat, position: nat, encode: bool)
    ensures Normalized(operand, position, encode)
            == (if encode then operand + position + 5 else operand - position - 5) % 0x1_0000_0000
  {
    var end := position + 5;
    var q := end / TWO32;
    assert end == q * TWO32 + end % TWO32;
    if encode {
      ModTurns(operand + end % TWO32, q);
    } else {
      ModTurns(operand + TWO32 - end % TWO32, -q - 1);
    }
  }

  lemma ModTurns(x: int, q: int)
    ensures (x + q * TWO32) % TWO32 == x % TWO32
  {
    var k := x / TWO32;
    assert x + q * TWO32 == (k + q) * TWO32 + x % TWO32;
  }

  /** Encoding makes every operand the place it leads to, decoding a distance again; no other byte changes. */
  lemma OperandsAreRewritten(d: seq<byte>, ps: seq<nat>, encode: bool)
    requires IsScan(d, 0, ps)
    ensures IsRewriting(d, Transformed(d, 0, encode), ps, encode)
  {
    hide IsScan, IsRewriting, Transformed;
    ScanUnique(d, 0, ps);
    StopsAreRewritten(d, 0, encode);
    assert d[0..] == d && d[..0] + Transformed(d, 0, encode) == Transformed(d, 0, encode);
  }

  /** Two calls that lead to one place are encoded with equal operands. */
  lemma SameTarget(d: seq<byte>, ps: seq<nat>, i: nat, j: nat)
    requires IsScan(d, 0, ps) && i < |ps| && j < |ps| && ps[i] + 5 <= |d| && ps[j] + 5 <= |d|
    requires (OperandAt(d, ps[i]) + ps[i]) % 0x1_0000_0000 == (OperandAt(d, ps[j]) + ps[j]) % 0x1_0000_0000
    ensures var t := Transformed(d, 0, true);
            t[ps[i] + 1..ps[i] + 5] == t[ps[j] + 1..ps[j] + 5]
  {
    hide IsScan, FromLe32, ToLe32, Transformed;
    OperandsAreRewritten(d, ps, true);
    var t := Transformed(d, 0, true);
    assert RewrittenAt(d, t, ps[i], true) && RewrittenAt(d, t, ps[j], true);
    SameResidue(OperandAt(d, ps[i]) + ps[i], OperandAt(d, ps[j]) + ps[j]);
    Le32Unique(t[ps[i] + 1..ps[i] + 5]);
    Le32Unique(t[ps[j] + 1..ps[j] + 5]);
  }

  lemma SameResidue(x: nat, y: nat)
    requires x % TWO32 == y % TWO32
    ensures (x + 5) % TWO32 == (y + 5) % TWO32
  {
    ModTurns(x % TWO32 + 5, x / TWO32);
    ModTurns(y % TWO32 + 5, y / TWO32);
  }

  method Transform(data: array<byte>, encode: bool)
    modifies data
    ensures data[..] == Transformed(old(data[..]), 0, encode)
  {
    hide Transformed;
    var position: nat := 0;
    ghost var goal := Transformed(data[..], 0, encode);
    assert data[0..] == data[..];
    while position + 5 <= data.Length
      invariant position <= data.Length
      invariant data[..position] + Transformed(data[position..], position, encode) == goal
      decreases data.Length - position
    {
      if IsBranch(data[position]) {
        RewriteOperand(data, position, encode);
        position := position + 5;
      } else {
        StepOver(data[..], position, encode);
        assert data[..][position..] == data[position..];
        assert data[..][position + 1..] == data[position + 1..];
        position := position + 1;
      }
    }
    StopAtEnd(data[..], position, encode);
  }

  lemma StopAtEnd(d: seq<byte>, position: nat, encode: bool)
    requires position <= |d| < position + 5
    ensures d[..position] + Transformed(d[position..], position, encode) == d
  {
  }

  method RewriteOperand(data: array<byte>, position: nat, encode: bool)
    requires position + 5 <= data.Length && IsBranch(data[position])
    modifies data
    ensures data[..position + 5] + Transformed(data[position + 5..], position + 5, encode)
            == old(data[..position]) + Transformed(old(data[position..]), position, encode)
  {
    hide Transformed, FromLe32, ToLe32, Normalized;
    ghost var d := data[..];
    var operand := FromLe32([data[position + 1], data[position + 2], data[position + 3], data[position + 4]]);
    assert d[position + 1..position + 5]
           == [data[position + 1], data[position + 2], data[position + 3], data[position + 4]];
    WriteOperand(data, position + 1, ToLe32(Normalized(operand, position, encode)));
    RewriteAt(d, data[..], position, encode);
    assert d[..position] == old(data[..position]) && d[position..] == old(data[position..]);
    assert data[..][..position + 5] == data[..position + 5] && data[..][position + 5..] == data[position + 5..];
  }

  method WriteOperand(data: array<byte>, at: nat, le: seq<byte>)
    requires |le| == 4 && at + 4 <= data.Length
    modifies data
    ensures data[..] == old(data[..at]) + le + old(data[at + 4..])
  {
    data[at], data[at + 1], data[at + 2], data[at + 3] := le[0], le[1], le[2], le[3];
  }

  lemma RewriteAt(d: seq<byte>, e: seq<byte>, position: nat, encode: bool)
    requires position + 5 <= |d| && IsBranch(d[position])
    requires e == d[..position + 1] + ToLe32(Normalized(FromLe32(d[position + 1..position + 5]), position, encode))
             + d[position + 5..]
    ensures e[..position + 5] + Transformed(e[position + 5..], position + 5, encode)
            == d[..position] + Transformed(d[position..], position, encode)
  {
    hide Transformed, FromLe32, ToLe32, Normalized;
    var s := d[position..];
    RewriteStep(s, position, encode);
    assert s[1..5] == d[position + 1..position + 5] && s[5..] == d[position + 5..];
    assert e[..position + 5] == d[..position] + ([s[0]] + ToLe32(Normalized(FromLe32(s[1..5]), position, encode)));
    assert e[position + 5..] == s[5..];
  }

  lemma RewriteStep(s: seq<byte>, position: nat, encode: bool)
    requires |s| >= 5 && IsBranch(s[0])
    ensures Transformed(s, position, encode)
            == ([s[0]] + ToLe32(Normalized(FromLe32(s[1..5]), position, encode)))
                + Transformed(s[5..], position + 5, encode)
  {
  }

  lemma StepOver(d: seq<byte>, position: nat, encode: bool)
    requires position + 5 <= |d| && !IsBranch(d[position])
    ensures d[..position + 1] + Transformed(d[position + 1..], position + 1, encode)
            == d[..position] + Transformed(d[position..], position, encode)
  {
    assert d[position..][1..] == d[position + 1..];
    assert d[..position + 1] == d[..position] + [d[position]];
  }

  /** `encode_x86`: executables only. */
  method EncodeX86(data: seq<byte>) returns (r: Option<seq<byte>>)
    ensures r == if IsX86Executable(data) then Some(Transformed(data, 0, true)) else None
    ensures r.Some? ==> |r.value| == |data| && Transformed(r.value, 0, false) == data
  {
    if !IsX86Executable(data) {
      return None;
    }
    var a := new byte[|data|](i requires 0 <= i < |data| => data[i]);
    assert a[..] == data;
    Transform(a, true);
    SelfInverse(data, 0, true);
    return Some(a[..]);
  }

  /** `decode_x86`, in place. */
  method DecodeX86(data: array<byte>)
    modifies data
    ensures data[..] == Transformed(old(data[..]), 0, false)
  {
    Transform(data, false);
  }
}
