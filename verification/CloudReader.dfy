/** Range-request reader with read-ahead over a stored object (`cloud/mod.rs`, `CloudReader`). */
module CloudReading {
  import opened Bytes

  const DEFAULT_BUFFER_SIZE: nat := 256 * 1024
  const MAX_FETCH_SIZE: nat := 16 * 1024 * 1024
  const I64_MAX: int := 0x7FFF_FFFF_FFFF_FFFF

  type u64 = n: nat | n < 0x1_0000_0000_0000_0000
  type i64 = n: int | -I64_MAX - 1 <= n <= I64_MAX

  function Min(a: nat, b: nat): nat {
    if a <= b then a else b
  }

  // ---------------------------------------------------------------------------------------------
  // The plain file a reader stands for
  // ---------------------------------------------------------------------------------------------

  /** How far one read gets: to the end of the request or of the file, 16 MiB at most. */
  function Progress(size: nat, position: nat, request: nat): (n: nat)
    ensures position < size ==> position + n <= size
    ensures position >= size ==> n == 0
    ensures position < size && request > 0 ==> n > 0
    ensures position < size && request <= MAX_FETCH_SIZE ==> n == Min(request, size - position)
  {
    if position >= size then 0 else Min(Min(request, size - position), MAX_FETCH_SIZE)
  }

  datatype SeekFrom = Start(at: u64) | End(delta: i64) | Current(delta: i64)

  datatype Sought = To(position: nat) | Invalid

  function Clamped(size: nat, target: int): Sought {
    if target < 0 then Invalid else To(Min(target, size))
  }

  /** Seeks work in 64-bit signed arithmetic; what does not fit is refused. */
  function Seek(size: nat, position: nat, from: SeekFrom): (r: Sought)
    ensures r.To? ==> r.position <= size
  {
    match from
    case Start(at) => if at > I64_MAX then Invalid else Clamped(size, at)
    case End(delta) => if size > I64_MAX || size + delta > I64_MAX then Invalid else Clamped(size, size + delta)
    case Current(delta) => if position > I64_MAX || position + delta > I64_MAX then Invalid
                           else Clamped(size, position + delta)
  }

  /** The three forms of seek name the same places. */
  lemma SeeksAgree(size: u64, position: u64, target: nat)
    requires size <= I64_MAX && position <= I64_MAX && target <= I64_MAX
    ensures Seek(size, position, Start(target)) == To(Min(target, size))
    ensures Seek(size, position, End(target - size)) == Seek(size, position, Start(target))
    ensures Seek(size, position, Current(target - position)) == Seek(size, position, Start(target))
  {
  }

  /**
   All seeks: a base, the start, the end or the position, and a distance. What leaves 63 bits or lies before
   the start is refused, what lies past the end stops there.
   */
  lemma SeekExactly(size: u64, position: u64, from: SeekFrom)
    ensures var (base: nat, distance: int) := match from
              case Start(at) => (0, at)
              case End(delta) => (size, delta)
              case Current(delta) => (position, delta);
            var target := base + distance;
            Seek(size, position, from)
            == if base >= 0x8000_0000_0000_0000 || target < 0 || target >= 0x8000_0000_0000_0000 then Invalid
               else To(if target <= size then target else size)
  {
  }

  /** What successive reads return, request by request. */
  function Reads(content: seq<byte>, position: nat, requests: seq<nat>): (parts: seq<byte>)
    requires position <= |content|
    decreases |requests|
  {
    if requests == [] then [] else
    var n := Progress(|content|, position, requests[0]);
    content[position..position + n] + Reads(content, position + n, requests[1..])
  }

  function Requested(requests: seq<nat>): nat {
    if requests == [] then 0 else Min(requests[0], MAX_FETCH_SIZE) + Requested(requests[1..])
  }

  lemma SplitSlice(s: seq<byte>, a: nat, b: nat, c: nat)
    requires a <= b <= c <= |s|
    ensures s[a..b] + s[b..c] == s[a..c]
  {
  }

  lemma SliceOfSlice(s: seq<byte>, start: nat, length: nat, a: nat, b: nat)
    requires start + length <= |s| && a <= b <= length
    ensures s[start..start + length][a..b] == s[start + a..start + b]
  {
    var t := s[start..start + length];
    forall k | 0 <= k < b - a
      ensures t[a..b][k] == s[start + a..start + b][k]
    {
      assert t[a..b][k] == t[a + k];
    }
  }

  /** Successive reads return the file in order, nothing lost or repeated, as far as was asked. */
  lemma {:induction false} ReadsInOrder(content: seq<byte>, position: nat, requests: seq<nat>)
    requires position <= |content|
    ensures Reads(content, position, requests) == content[position..Min(|content|, position + Requested(requests))]
    decreases |requests|
  {
    hide Min, Progress, Reads, Requested;
    if requests == [] {
      NoReads(content, position);
    } else {
      var n, rest := Progress(|content|, position, requests[0]), Requested(requests[1..]);
      ReadsStep(content, position, requests);
      SameEnd(|content|, position, requests[0], rest);
      var next, end := position + n, Min(|content|, position + n + rest);
      ReadsInOrder(content, next, requests[1..]);
      SplitSlice(content, position, next, end);
    }
  }

  lemma NoReads(content: seq<byte>, position: nat)
    requires position <= |content|
    ensures Reads(content, position, []) == content[position..position]
    ensures Min(|content|, position + Requested([])) == position
  {
  }

  lemma ReadsStep(content: seq<byte>, position: nat, requests: seq<nat>)
    requires position <= |content| && requests != []
    ensures var n := Progress(|content|, position, requests[0]);
            && Reads(content, position, requests)
               == content[position..position + n] + Reads(content, position + n, requests[1..])
            && Requested(requests) == Min(requests[0], MAX_FETCH_SIZE) + Requested(requests[1..])
  {
  }

  lemma SameEnd(size: nat, position: nat, request: nat, rest: nat)
    requires position <= size
    ensures var n := Progress(size, position, request);
            && position + n <= Min(size, position + n + rest) <= size
            && Min(size, position + n + rest) == Min(size, position + (Min(request, MAX_FETCH_SIZE) + rest))
  {
  }

  // ---------------------------------------------------------------------------------------------
  // Backend and reader
  // ---------------------------------------------------------------------------------------------

  /** A storage backend that answers honestly or, when it cannot be reached, not at all. */
  class Backend {
    var content: seq<byte>
    var reachable: bool

    constructor (content: seq<byte>)
      ensures this.content == content && reachable
    {
      this.content, reachable := content, true;
    }

    /** The bytes of `[offset, offset + length)`. */
    method ReadRange(offset: nat, length: nat) returns (r: Result<seq<byte>>)
      ensures r.Ok? <==> reachable && offset <= |content|
      ensures r.Ok? ==> r.value == content[offset..Min(offset + length, |content|)]
    {
      if !reachable {
        return Err(ResourceLimit);
      }
      if offset > |content| {
        return Err(ResourceLimit);
      }
      return Ok(content[offset..Min(offset + length, |content|)]);
    }

    method Size() returns (r: Result<nat>)
      ensures r.Ok? <==> reachable
      ensures r.Ok? ==> r.value == |content|
    {
      if !reachable {
        return Err(ResourceLimit);
      }
      return Ok(|content|);
    }
  }

  /** How much a miss requests: the read-ahead size or more, never past the end or the fetch cap. */
  function FetchLength(wanted: nat, remaining: nat): (n: nat)
    ensures n <= remaining && n <= MAX_FETCH_SIZE
  {
    Min(Min(if wanted > DEFAULT_BUFFER_SIZE then wanted else DEFAULT_BUFFER_SIZE, remaining), MAX_FETCH_SIZE)
  }

  lemma EnoughFetched(size: nat, position: nat, request: nat)
    requires position < size
    ensures var wanted := Min(request, size - position);
            var fetch := FetchLength(wanted, size - position);
            && Min(fetch, wanted) == Progress(size, position, request)
            && Min(fetch, wanted) <= fetch && Min(fetch, wanted) <= wanted <= request
            && Min(position + fetch, size) == position + fetch
  {
  }

  class CloudReader {
    const backend: Backend
    var position: nat
    var totalSize: nat
    var buf: seq<byte>
    var bufStart: nat

    /** The buffer is a true slice of the object, and the cached size is its size. */
    ghost predicate Valid()
      reads this, backend
    {
      && totalSize == |backend.content|
      && |buf| <= MAX_FETCH_SIZE
      && (buf != [] ==> bufStart + |buf| <= |backend.content| && buf == backend.content[bufStart..bufStart + |buf|])
    }

    /** An opened reader; `Open` queries the size first. */
    constructor At(backend: Backend, totalSize: nat)
      ensures this.backend == backend && this.totalSize == totalSize
      ensures position == 0 && buf == []
    {
      this.backend := backend;
      this.position := 0;
      this.totalSize := totalSize;
      this.buf := [];
      this.bufStart := 0;
    }

    /** `new`. */
    static method Open(backend: Backend) returns (r: Result<CloudReader>)
      ensures r.Ok? <==> backend.reachable
      ensures r.Ok? ==> fresh(r.value) && r.value.backend == backend && r.value.Valid() && r.value.position == 0
    {
      var size := backend.Size();
      if size.Err? {
        return Err(size.error);
      }
      var reader := new CloudReader.At(backend, size.value);
      return Ok(reader);
    }

    /** `refresh_size`: valid again for whatever the object is now. */
    method RefreshSize() returns (r: Result<()>)
      modifies this
      ensures position == old(position)
      ensures r.Ok? <==> backend.reachable
      ensures r.Ok? ==> Valid() && buf == []
      ensures r.Err? ==> unchanged(this)
    {
      var size := backend.Size();
      if size.Err? {
        return Err(size.error);
      }
      totalSize := size.value;
      buf := [];
      return Ok(());
    }

    /** A read of `length` bytes needs no request: it is at the end, or the buffer holds all it gets. */
    ghost predicate Buffered(length: nat)
      reads this
    {
      position >= totalSize
      || (bufStart <= position && position + Min(length, totalSize - position) <= bufStart + |buf|)
    }

    /** How much a request brings: 256 KiB or what is read, to the end, 16 MiB at most. */
    ghost function ReadAhead(length: nat): nat
      requires position < totalSize
      reads this
    {
      var remaining := totalSize - position;
      var wanted := if length < remaining then length else remaining;
      var least := if wanted < 262_144 then 262_144 else wanted;
      var inside := if least < remaining then least else remaining;
      if inside < 16_777_216 then inside else 16_777_216
    }

    /** `read`: what a plain file read at the current position gives. */
    method Read(out: array<byte>) returns (r: Result<nat>)
      requires Valid()
      modifies this, out
      ensures Valid()
      ensures r.Ok? <==> old(Buffered(out.Length)) || backend.reachable
      ensures r.Err? ==> unchanged(this) && out[..] == old(out[..])
      ensures r.Ok? ==> r.value == Progress(|backend.content|, old(position), out.Length)
      ensures r.Ok? ==> position == old(position) + r.value
      ensures r.Ok? && r.value > 0 ==> out[..] == backend.content[old(position)..position] + old(out[r.value..])
      ensures r.Ok? && r.value == 0 ==> out[..] == old(out[..])
      ensures old(Buffered(out.Length)) ==> buf == old(buf) && bufStart == old(bufStart)
      ensures r.Ok? && !old(Buffered(out.Length)) ==> bufStart == old(position) && |buf| == old(ReadAhead(out.Length))
    {
      if position >= totalSize {
        return Ok(0);
      }
      var wanted := Min(out.Length, totalSize - position);
      if bufStart <= position && position + wanted <= bufStart + |buf| {
        Serve(out, wanted);
        return Ok(wanted);
      }
      r := Fetch(out, wanted);
    }

    /** A buffer hit. */
    method Serve(out: array<byte>, wanted: nat)
      requires Valid() && position < totalSize && wanted == Min(out.Length, totalSize - position)
      requires bufStart <= position && position + wanted <= bufStart + |buf|
      modifies this`position, out
      ensures Valid() && position == old(position) + wanted
      ensures out[..] == backend.content[old(position)..position] + old(out[wanted..])
    {
      var offset := position - bufStart;
      if buf != [] {
        SliceOfSlice(backend.content, bufStart, |buf|, offset, offset + wanted);
      }
      Copy(out, buf[offset..offset + wanted]);
      position := position + wanted;
    }

    /** A buffer miss. */
    method Fetch(out: array<byte>, wanted: nat) returns (r: Result<nat>)
      requires Valid() && position < totalSize && wanted == Min(out.Length, totalSize - position)
      modifies this, out
      ensures Valid() && (r.Ok? <==> backend.reachable)
      ensures r.Err? ==> unchanged(this) && out[..] == old(out[..])
      ensures r.Ok? ==> r.value == Progress(|backend.content|, old(position), out.Length)
      ensures r.Ok? ==> position == old(position) + r.value
      ensures r.Ok? ==> out[..] == backend.content[old(position)..position] + old(out[r.value..])
      ensures r.Ok? ==> bufStart == old(position) && |buf| == FetchLength(wanted, |backend.content| - old(position))
    {
      hide Progress, Min, FetchLength;
      var fetch := FetchLength(wanted, totalSize - position);
      EnoughFetched(totalSize, position, out.Length);
      var data := backend.ReadRange(position, fetch);
      if data.Err? {
        return Err(data.error);
      }
      var n := Min(|data.value|, wanted);
      assert data.value == backend.content[position..position + fetch];
      SliceOfSlice(backend.content, position, fetch, 0, n);
      Copy(out, data.value[..n]);
      bufStart := position;
      buf := data.value;
      position := position + n;
      return Ok(n);
    }

    static method Copy(out: array<byte>, data: seq<byte>)
      requires |data| <= out.Length
      modifies out
      ensures out[..] == data + old(out[|data|..])
    {
      for i := 0 to |data|
        invariant out[..i] == data[..i] && out[i..] == old(out[i..])
      {
        out[i] := data[i];
      }
      assert out[..] == out[..|data|] + out[|data|..];
    }

    /** `seek`. */
    method SeekTo(from: SeekFrom) returns (r: Sought)
      requires Valid()
      modifies this
      ensures Valid()
      ensures r == Seek(|backend.content|, old(position), from)
      ensures position == if r.To? then r.position else old(position)
      ensures r.Invalid? ==> unchanged(this)
    {
      var target: int;
      match from {
        case Start(at) =>
          if at > I64_MAX {
            return Invalid;
          }
          target := at;
        case End(delta) =>
          if totalSize > I64_MAX || totalSize + delta > I64_MAX {
            return Invalid;
          }
          target := totalSize + delta;
        case Current(delta) =>
          if position > I64_MAX || position + delta > I64_MAX {
            return Invalid;
          }
          target := position + delta;
      }
      if target < 0 {
        return Invalid;
      }
      position := Min(target, totalSize);
      if position < bufStart || position >= bufStart + |buf| {
        buf := [];
      }
      return To(position);
    }
  }
}
