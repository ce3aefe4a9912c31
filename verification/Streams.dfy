/**
  Byte streams that hand out or take in only part of what a call asks for, the loops that make whole
  transfers out of such calls, and variable-length integers over them.
 */
module Streams {
  import opened Blocks
  import opened Digits
  import opened Words
  import opened Varint

  /** How many bytes beyond the first each call in turn is willing to move. */
  type Grants = nat -> nat

  function Min(a: nat, b: nat): nat {
    if a < b then a else b
  }

  /** Bytes in memory, read from the front; `grants` cuts each call short. */
  class InputStream {
    const buffer: Bytes
    const grants: Grants
    var position: nat
    var calls: nat

    ghost predicate Valid()
      reads this
    {
      position <= |buffer|
    }

    ghost function Rest(): Bytes
      requires Valid()
      reads this
    {
      buffer[position..]
    }

    constructor (buffer: Bytes, grants: Grants)
      ensures Valid() && Rest() == buffer
    {
      this.buffer := buffer;
      this.grants := grants;
      position := 0;
      calls := 0;
    }

    method EndOfStream() returns (end: bool)
      requires Valid()
      ensures end <==> Rest() == []
    {
      return position == |buffer|;
    }

    /** Hands out at least one byte as long as one is wanted and one is left. */
    method ReadSome(size: nat) returns (data: Bytes)
      requires Valid()
      modifies this
      ensures Valid() && position == old(position) + |data| && data == buffer[old(position)..position]
      ensures |data| <= size && (data == [] <==> size == 0 || old(position) == |buffer|)
    {
      var left := |buffer| - position;
      var readSize := Min(Min(size, left), 1 + grants(calls));
      data := buffer[position..position + readSize];
      position := position + readSize;
      calls := calls + 1;
    }

    /** The whole-transfer loop: all of `size` bytes, or failure at the end of the stream. */
    method Read(size: nat) returns (r: Option<Bytes>)
      requires Valid()
      modifies this
      ensures Valid()
      ensures r.Some? <==> old(position) + size <= |buffer|
      ensures r.Some? ==> position == old(position) + size && r.value == buffer[old(position)..position]
      ensures r.None? ==> Rest() == []
    {
      var left: nat, data: Bytes := size, [];
      while left > 0
        invariant Valid() && |data| + left == size
        invariant position == old(position) + |data| && data == buffer[old(position)..position]
      {
        var piece := ReadSome(left);
        if |piece| == 0 {
          return None;
        }
        data := data + piece;
        left := left - |piece|;
      }
      return Some(data);
    }
  }

  /** Collects what it is given; `grants` cuts each call short. */
  class OutputStream {
    const grants: Grants
    var written: Bytes
    var calls: nat

    constructor (grants: Grants)
      ensures written == []
    {
      this.grants := grants;
      written := [];
      calls := 0;
    }

    /** Takes in at least one byte if there is one. */
    method WriteSome(data: Bytes) returns (size: nat)
      modifies this
      ensures size <= |data| && (size == 0 <==> data == []) && written == old(written) + data[..size]
    {
      size := Min(|data|, 1 + grants(calls));
      calls := calls + 1;
      written := written + data[..size];
    }

    /** The whole-transfer loop. */
    method Write(data: Bytes) returns (ok: bool)
      modifies this
      ensures ok && written == old(written) + data
    {
      var rest := data;
      while |rest| > 0
        invariant written + rest == old(written) + data
      {
        ghost var before := written;
        var size := WriteSome(rest);
        if size == 0 {
          return false;
        }
        assert before + rest == written + rest[size..];
        rest := rest[size..];
      }
      return true;
    }
  }

  /** Setting one bit and keeping the bits up to it. */
  lemma {:induction false} OrThenCut(v: nat, k: nat)
    ensures BitOr(v, Pow(2, k)) % Pow(2, k + 1) == Pow(2, k) + v % Pow(2, k)
    decreases k
  {
    var x, p := BitOr(v, Pow(2, k)), Pow(2, k);
    if k == 0 {
      assert x % 2 == 1;
    } else {
      var h := Pow(2, k - 1);
      assert x == 2 * BitOr(v / 2, h) + v % 2 by { assert p == 2 * h; }
      OrThenCut(v / 2, k - 1);
      DivDiv(x, 2, p);
      DivDiv(v, 2, h);
    }
  }

  /** The low byte of `value | 0x80`. */
  method MarkedLow(value: u64) returns (b: byte)
    ensures b == 128 + value % 128
  {
    assert Pow(2, 7) == 128 && Pow(2, 8) == 256;
    OrThenCut(value, 7);
    return BitOr(value, 0x80) % 256;
  }

  method WriteVarint(out: OutputStream, v: u64) returns (ok: bool)
    modifies out
    ensures ok && out.written == old(out.written) + Written(v)
  {
    var value: u64 := v;
    while value >= 0x80
      invariant out.written + Written(value) == old(out.written) + Written(v)
    {
      var b := MarkedLow(value);
      assert out.written + Written(value) == out.written + [b] + Written(value / 128);
      ok := out.Write([b]);
      if !ok {
        return;
      }
      assert Pow(2, 7) == 128;
      value := Shr(value, 7);
    }
    ok := out.Write([value % 256]);
  }

  method ReadByte(from: InputStream) returns (r: Option<byte>)
    requires from.Valid()
    modifies from
    ensures from.Valid()
    ensures if old(from.Rest()) == [] then r == None && from.position == old(from.position)
            else r == Some(old(from.Rest())[0]) && from.position == old(from.position) + 1
  {
    var data := from.Read(1);
    if data.None? {
      return None;
    }
    return Some(data.value[0]);
  }

  datatype Step = Fail | Done(v: u64) | More(temp: u64)

  /** What the reader does with one piece. */
  method TakePiece(bits: nat, ghost s: Bytes, ghost k: nat, temp: u64, shift: nat, piece: byte) returns (step: Step)
    requires InGroup(bits, s, k, temp) && k < |s| && piece == s[k] && shift == 7 * k && bits <= 64
    ensures step.More? ==> InGroup(bits, s, k + 1, step.temp)
    ensures step.Done? ==> Varint.Read(bits, s) == Value(step.v, k + 1)
    ensures step.Fail? ==> Varint.Read(bits, s) in {TooLarge(k + 1), NotShortest(k + 1)}
  {
    NextByteDecides(bits, s, k, temp);
    if shift >= bits - 7 && piece >= Pow(2, bits - shift) {
      return Fail;
    }
    if piece != 0 || shift == 0 {
      FitsInWord(Collected(temp, piece, k), bits);
    }
    var x := Payload(piece);
    var temp' := Collect(temp, x, shift);
    if piece < 128 {
      if piece == 0 && shift != 0 {
        return Fail;
      }
      return Done(temp');
    }
    return More(temp');
  }

  /** Reads a number of `bits` bits; every outcome other than a whole number in shortest form is a failure. */
  method ReadVarint(from: InputStream, bits: nat) returns (r: Option<u64>)
    requires from.Valid() && bits in {8, 16, 32, 64}
    modifies from
    ensures from.Valid()
    ensures var o := Varint.Read(bits, old(from.Rest())); from.position == old(from.position) + o.count
    ensures var o := Varint.Read(bits, old(from.Rest())); if o.Value? then r == Some(o.v) else r == None
  {
    ghost var s, k := from.Rest(), 0;
    var temp: u64, shift := 0, 0;
    assert s[..0] == [];
    while true
      invariant from.Valid() && shift == 7 * k && InGroup(bits, s, k, temp)
      invariant from.position == old(from.position) + k
      decreases |s| - k
    {
      var piece := ReadByte(from);
      if piece.None? {
        EndsEarly(bits, s, temp);
        return None;
      }
      var step := TakePiece(bits, s, k, temp, shift, piece.value);
      match step {
        case Fail => return None;
        case Done(v) => return Some(v);
        case More(temp') => temp := temp';
      }
      shift, k := shift + 7, k + 1;
    }
  }

  // ----- many numbers through streams ---------------------------------------

  lemma WrittenFrom(vs: seq<nat>, i: nat)
    requires i < |vs|
    ensures WrittenAll(vs[i..]) == Written(vs[i]) + WrittenAll(vs[i + 1..])
  {
    assert vs[i..][1..] == vs[i + 1..];
  }

  lemma ReadsBackNext(vs: seq<u64>, i: nat, rest: Bytes)
    requires i < |vs| && rest == WrittenAll(vs[i..])
    ensures var n := |Written(vs[i])|;
            n <= |rest| && Varint.Read(64, rest) == Value(vs[i], n) && rest[n..] == WrittenAll(vs[i + 1..])
  {
    WordIsPower();
    WrittenFrom(vs, i);
    ReadsBack(64, vs[i], WrittenAll(vs[i + 1..]));
  }

  /** What is written so far, and what is still to come. */
  ghost predicate Midway(done: Bytes, vs: seq<nat>, i: nat) {
    i <= |vs| && done + WrittenAll(vs[i..]) == WrittenAll(vs)
  }

  lemma MidwayMovesOn(done: Bytes, vs: seq<nat>, i: nat)
    requires Midway(done, vs, i) && i < |vs|
    ensures Midway(done + Written(vs[i]), vs, i + 1)
  {
    WrittenFrom(vs, i);
    assert done + Written(vs[i]) + WrittenAll(vs[i + 1..]) == done + WrittenAll(vs[i..]);
  }

  method WriteEach(vs: seq<u64>, takes: Grants) returns (s: Bytes)
    ensures s == WrittenAll(vs)
  {
    var out := new OutputStream(takes);
    assert Midway([], vs, 0) by { assert vs[0..] == vs; }
    for i := 0 to |vs|
      invariant Midway(out.written, vs, i)
    {
      MidwayMovesOn(out.written, vs, i);
      var _ := WriteVarint(out, vs[i]);
    }
    return out.written;
  }

  method ReadEach(s: Bytes, n: nat, gives: Grants, ghost vs: seq<u64>) returns (ws: seq<u64>, end: bool)
    requires s == WrittenAll(vs) && n == |vs|
    ensures ws == vs && end
  {
    var from := new InputStream(s, gives);
    ws := [];
    assert vs[0..] == vs;
    for i := 0 to n
      invariant from.Valid() && from.Rest() == WrittenAll(vs[i..]) && ws == vs[..i]
    {
      ReadsBackNext(vs, i, from.Rest());
      ghost var rest := from.Rest();
      var r := ReadVarint(from, 64);
      assert from.Rest() == rest[|Written(vs[i])|..];
      ws := ws + [r.value];
    }
    end := from.EndOfStream();
  }

  /** Numbers written one after the other are read back one after the other, however the calls are cut short. */
  method WriteThenRead(vs: seq<u64>, takes: Grants, gives: Grants) returns (ws: seq<u64>, end: bool)
    ensures ws == vs && end
  {
    var s := WriteEach(vs, takes);
    ws, end := ReadEach(s, |vs|, gives, vs);
  }
}
