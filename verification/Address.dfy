/** Tagged addresses: a tag, a payload and a checksum over both, written in Base58. */
module Address {
  import opened Blocks
  import opened Digits
  import opened Words
  import opened Base58
  import V = Varint

  /** The hash function is a parameter; only its output length matters. */
  type Hasher = h: Bytes -> Bytes | forall s :: |h(s)| == 32 witness (s => seq(32, i => 0))

  const CHECKSUM_SIZE: nat := 4

  function Checksum(hash: Hasher, body: Bytes): (c: Bytes)
    ensures |c| == CHECKSUM_SIZE
  {
    hash(body)[..CHECKSUM_SIZE]
  }

  // ----- what an address is -------------------------------------------------

  ghost function Body(tag: nat, data: Bytes): Bytes {
    V.Written(tag) + data
  }

  /** The text for a body that is followed by its checksum. */
  ghost function Sealed(hash: Hasher, body: Bytes): string {
    Encoded(body + Checksum(hash, body))
  }

  /** The body of a text with a matching checksum. */
  ghost function Opened(hash: Hasher, text: string): Option<Bytes> {
    var d := Decoded(text);
    if d.None? || |d.value| <= CHECKSUM_SIZE then None
    else
      var n := |d.value| - CHECKSUM_SIZE;
      if Checksum(hash, d.value[..n]) == d.value[n..] then Some(d.value[..n]) else None
  }

  /** The tag that a body starts with and the payload behind it; a tag cut off by the end still counts. */
  ghost function Split(body: Bytes): (r: Option<(nat, Bytes)>) {
    var o := V.Read(64, body);
    if (o.Value? || o.Partial?) && 0 < o.count <= |body| then Some((o.v, body[o.count..])) else None
  }

  ghost function Parsed(hash: Hasher, text: string): Option<(nat, Bytes)> {
    var body := Opened(hash, text);
    if body.None? then None else Split(body.value)
  }

  // ----- round trips --------------------------------------------------------

  /** Opening is exactly the inverse of sealing, for bodies that are not empty. */
  lemma {:induction false} OpensIffSealed(hash: Hasher, text: string, body: Bytes)
    ensures Opened(hash, text) == Some(body) <==> body != [] && text == Sealed(hash, body)
  {
    var d := body + Checksum(hash, body);
    DecodesIffEncoded(text, d);
    assert d[..|body|] == body && d[|body|..] == Checksum(hash, body);
    if Opened(hash, text) == Some(body) {
      assert Decoded(text).value == d;
    }
  }

  /** The text decodes to a body with the first four bytes of its hash behind it. */
  ghost predicate Carries(hash: Hasher, text: string, body: Bytes) {
    body != [] && Decoded(text) == Some(body + hash(body)[..4])
  }

  lemma OpensIff(hash: Hasher, text: string, body: Bytes)
    ensures Opened(hash, text) == Some(body) <==> Carries(hash, text, body)
    ensures Sealed(hash, body) == text <==> Decoded(text) == Some(body + hash(body)[..4])
  {
    OpensIffSealed(hash, text, body);
    DecodesIffEncoded(text, body + hash(body)[..4]);
  }

  lemma SplitOfBody(tag: u64, data: Bytes)
    ensures Split(Body(tag, data)) == Some((tag, data)) && Body(tag, data) == V.Written(tag) + data
  {
    V.WordIsPower();
    V.ReadsBack(64, tag, data);
    V.WrittenIsShortest(tag);
    assert Body(tag, data)[|V.Written(tag)|..] == data;
  }

  /** Every tag and payload come back from their address. */
  lemma {:induction false} AddressRoundTrip(hash: Hasher, tag: u64, data: Bytes)
    ensures var body := V.Written(tag) + data; Parsed(hash, Encoded(body + hash(body)[..4])) == Some((tag, data))
  {
    V.WrittenIsShortest(tag);
    OpensIffSealed(hash, Sealed(hash, Body(tag, data)), Body(tag, data));
    SplitOfBody(tag, data);
  }

  /** Does the tag end inside the body, or only because the body does? */
  ghost predicate TagEnds(body: Bytes) {
    !V.GoesOn(body)
  }

  lemma SplitRejoins(body: Bytes)
    requires Split(body).Some?
    ensures var (tag, data) := Split(body).value; tag < WORD && (Body(tag, data) == body <==> TagEnds(body))
  {
    var o := V.Read(64, body);
    var (tag, data) := Split(body).value;
    V.WordIsPower();
    V.WrittenIsShortest(tag);
    if o.Value? {
      V.AcceptedIsWritten(64, body);
      assert body == body[..o.count] + body[o.count..];
      assert body[o.count - 1] == body[..o.count][o.count - 1];
    } else {
      CutOffTag(body);
    }
  }

  lemma CutOffTag(body: Bytes)
    requires V.Read(64, body).Partial? && body != []
    ensures V.GoesOn(body) && V.Read(64, body).v < WORD && V.Read(64, body).count == |body|
    ensures Body(V.Read(64, body).v, []) != body
  {
    var v := V.Read(64, body).v;
    V.GroupIsBounded(body);
    V.PowOf128(|body|);
    PowGrows(2, 7 * |body|, 64);
    V.WordIsPower();
    V.WrittenIsShortest(v);
    assert Body(v, []) == V.Written(v);
  }

  /** An accepted text is the address of what it stands for exactly when its tag ends before its body does. */
  lemma {:induction false} ReencodesIff(hash: Hasher, text: string)
    requires Parsed(hash, text).Some?
    ensures Opened(hash, text).Some?
    ensures var (tag, data) := Parsed(hash, text).value;
            tag < WORD && (Sealed(hash, Body(tag, data)) == text <==> TagEnds(Opened(hash, text).value))
  {
    var body := Opened(hash, text).value;
    var (tag, data) := Parsed(hash, text).value;
    SplitRejoins(body);
    V.WrittenIsShortest(tag);
    OpensIffSealed(hash, text, body);
    OpensIffSealed(hash, text, Body(tag, data));
  }

  /** Some accepted text is not the address of what it stands for, whatever the hash function. */
  lemma {:induction false} SomeTextDoesNotReencode(hash: Hasher)
    ensures var text := Sealed(hash, [0x80]);
            Parsed(hash, text) == Some((0, [])) && text != Sealed(hash, Body(0, []))
  {
    var body: Bytes := [0x80];
    OpensIffSealed(hash, Sealed(hash, body), body);
    assert V.GoesOn(body[..1]) && body[..1] == body;
    V.GroupIsLonger(body, 1);
    assert V.GroupValue(body) == 0 by { V.GroupCons(0x80, []); assert [0x80] + [] == body; }
    ReencodesIff(hash, Sealed(hash, body));
  }

  // ----- the coder ----------------------------------------------------------

  method EncodeAddr(hash: Hasher, tag: u64, data: Bytes) returns (text: string)
    ensures text == Sealed(hash, Body(tag, data))
    ensures var body := V.Written(tag) + data; Decoded(text) == Some(body + hash(body)[..4])
  {
    OpensIff(hash, Sealed(hash, Body(tag, data)), Body(tag, data));
    var buf := V.WriteVarint(tag);
    buf := buf + data;
    buf := buf + hash(buf)[..CHECKSUM_SIZE];
    text := Encode(buf);
  }

  method DecodeAddr(hash: Hasher, addr: string) returns (r: Option<(u64, Bytes)>)
    ensures r == Parsed(hash, addr)
    ensures forall body :: Carries(hash, addr, body) ==> r == Split(body)
    ensures r.Some? ==> exists body :: Carries(hash, addr, body)
  {
    ParsedByChecksum(hash, addr);
    var decoded := Decode(addr);
    if decoded.None? {
      return None;
    }
    var addrData := decoded.value;
    if |addrData| <= CHECKSUM_SIZE {
      return None;
    }
    var checksum := addrData[|addrData| - CHECKSUM_SIZE..];
    addrData := addrData[..|addrData| - CHECKSUM_SIZE];
    if hash(addrData)[..CHECKSUM_SIZE] != checksum {
      return None;
    }
    var read, tag := V.ReadVarint(64, addrData);
    if read <= 0 {
      return None;
    }
    CountIsBounded(addrData);
    return Some((tag, addrData[read..]));
  }

  lemma ParsedByChecksum(hash: Hasher, addr: string)
    ensures forall body :: Carries(hash, addr, body) ==> Parsed(hash, addr) == Split(body)
    ensures Parsed(hash, addr).Some? ==> exists body :: Carries(hash, addr, body)
  {
    forall body | Carries(hash, addr, body) ensures Parsed(hash, addr) == Split(body) {
      OpensIff(hash, addr, body);
    }
    if Parsed(hash, addr).Some? {
      OpensIff(hash, addr, Opened(hash, addr).value);
    }
  }

  lemma CountIsBounded(body: Bytes)
    ensures var o := V.Read(64, body); o.Value? || o.Partial? ==> o.count <= |body| && (body != [] ==> o.count > 0)
  {
  }
}
