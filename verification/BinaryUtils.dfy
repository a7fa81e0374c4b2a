/** Reading from a stream of bytes that can step back by one. */
module BinaryUtils {
  import opened Wrappers
  import opened Vlq

  /** Bytes held in memory and how far they were read. */
  class Reader {
    const data: seq<Byte>
    var pos: nat

    ghost predicate Valid()
      reads this
    {
      pos <= |data|
    }

    /** What is still to be read. */
    ghost function Rest(): seq<Byte>
      requires Valid()
      reads this
    {
      data[pos..]
    }

    constructor (data: seq<Byte>)
      ensures Valid() && this.data == data && pos == 0
    {
      this.data, pos := data, 0;
    }

    /** The next byte, or nothing at the end. */
    method ReadByte() returns (r: Option<Byte>)
      requires Valid()
      modifies this
      ensures Valid()
      ensures r == if old(pos) < |data| then Some(data[old(pos)]) else None
      ensures pos == if old(pos) < |data| then old(pos) + 1 else old(pos)
    {
      if pos >= |data| {
        return None;
      }
      r := Some(data[pos]);
      pos := pos + 1;
    }

    method UnreadByte() returns (ok: bool)
      requires Valid()
      modifies this
      ensures Valid() && ok == (old(pos) > 0) && pos == if ok then old(pos) - 1 else 0
    {
      ok := pos > 0;
      if ok {
        pos := pos - 1;
      }
    }

    /** Fills a buffer of `n` zeroes with what there is; at the end of the input even
        an empty buffer is refused. */
    method Read(n: nat) returns (r: Option<seq<Byte>>)
      requires Valid()
      modifies this
      ensures Valid()
      ensures r == Filled(old(Rest()), n)
      ensures Rest() == old(Rest())[if n < |old(Rest())| then n else |old(Rest())|..]
    {
      if pos >= |data| {
        return None;
      }
      ghost var rest := data[pos..];
      var buffer := new Byte[n](_ => 0);
      var m := if n < |data| - pos then n else |data| - pos;
      for i := 0 to m
        invariant pos == old(pos)
        invariant forall k :: 0 <= k < n ==> buffer[k] == if k < i then rest[k] else 0
      {
        buffer[i] := data[pos + i];
      }
      pos := pos + m;
      assert buffer[..] == Fitted(rest, n);
      assert data[pos..] == rest[m..];
      r := Some(buffer[..]);
    }
  }

  function Zeroes(n: nat): (s: seq<Byte>)
    ensures |s| == n && forall i :: 0 <= i < n ==> s[i] == 0
  {
    seq(n, _ => 0)
  }

  /** The first `n` bytes, padded with zeroes when there are fewer. */
  function Fitted(s: seq<Byte>, n: nat): (r: seq<Byte>)
    ensures |r| == n && forall k :: 0 <= k < n ==> r[k] == if k < |s| then s[k] else 0
  {
    if n < |s| then s[..n] else s + Zeroes(n - |s|)
  }

  /** A buffer of `n` bytes filled from the front of `rest`. */
  function Filled(rest: seq<Byte>, n: nat): Option<seq<Byte>> {
    if |rest| == 0 then None else Some(Fitted(rest, n))
  }

  /** Copies as many bytes as there are and as fit. */
  method CopyInto(target: array<Byte>, at: nat, source: seq<Byte>) returns (count: nat)
    requires at <= target.Length
    modifies target
    ensures count == if |source| < target.Length - at then |source| else target.Length - at
    ensures target[..] == Written(old(target[..]), at, source[..count])
    ensures count == |source| ==> source[..count] == source
  {
    count := if |source| < target.Length - at then |source| else target.Length - at;
    for i := 0 to count
      invariant forall k :: 0 <= k < target.Length ==> target[k] == if at <= k < at + i then source[k - at] else old(target[k])
    {
      target[at + i] := source[i];
    }
    WrittenIs(old(target[..]), at, source[..count], target[..]);
  }

  /** Reading from a stream. The end of the stream ends the number. */
  method DeserializeVLQ(buf: Reader) returns (n: Word, size: nat)
    requires buf.Valid()
    modifies buf
    ensures buf.Valid() && buf.pos == old(buf.pos) + size
    ensures n == Decoded(old(buf.Rest())) && size == Size(old(buf.Rest()))
    ensures buf.Rest() == old(buf.Rest())[size..]
  {
    hide Decoded, Size, Value, Carry;
    n, size := 0, 0;
    ghost var rest := buf.Rest();
    NothingRead(rest);
    while true
      invariant buf.Valid() && buf.pos == old(buf.pos) + size && GoesOn(rest, size, n)
      decreases |rest| - size
    {
      var val := buf.ReadByte();
      if val.None? {
        break;
      }
      var last;
      ghost var before := n;
      n, last := TakeByte(n, val.value, rest[..size]);
      ReadOn(rest, size, before, n);
      size := size + 1;
      if last {
        break;
      }
    }
    ReadIs(rest, size, n);
    assert buf.Rest() == rest[size..];
  }

  function Reversed(s: seq<Byte>): (r: seq<Byte>)
    ensures |r| == |s| && forall i :: 0 <= i < |s| ==> r[i] == s[|s| - 1 - i]
  {
    seq(|s|, i requires 0 <= i < |s| => s[|s| - 1 - i])
  }

  lemma ReversedTwice(s: seq<Byte>)
    ensures Reversed(Reversed(s)) == s
  {
    forall i | 0 <= i < |s| ensures Reversed(Reversed(s))[i] == s[i] {
    }
  }

  method ReverseBytesWithCopy(input: seq<Byte>) returns (r: seq<Byte>)
    ensures r == Reversed(input)
  {
    var temp := new Byte[|input|](i requires 0 <= i < |input| => input[i]);
    ReverseBetween(temp, 0, temp.Length);
    r := temp[..];
  }
}
