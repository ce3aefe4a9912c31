/** The receiver of a response body: it keeps a chunk size, its digits and a buffer between receives. */
module HttpBody {
  import opened Digits
  import opened Words
  import opened Chunked

  // ----- one phase stands for another ---------------------------------------

  /** Both lead to the same data and to the same state between pieces. */
  ghost predicate Same(p: Phase, u: Bytes, q: Phase, v: Bytes) {
    Forget(Run(p, u)) == Forget(Run(q, v)) && Emitted(p, u) == Emitted(q, v)
  }

  /** What the decoder takes its state for when it looks at a size line anew. */
  ghost function Top(ds: Bytes): Phase {
    if ds == [] then Lead else Size(ds)
  }

  lemma Advance(p: Phase, buf: Bytes, i: nat)
    requires i < |buf| && !p.Data?
    ensures Same(p, buf[i..], Step(p, buf[i]), buf[i + 1..])
  {
    assert buf[i..][1..] == buf[i + 1..];
  }

  lemma SameNext(p: Phase, q: Phase, buf: Bytes, i: nat)
    requires i <= |buf| && !p.Data? && !q.Data? && Forget(p) == Forget(q)
    requires i < |buf| ==> Step(p, buf[i]) == Step(q, buf[i])
    ensures Same(p, buf[i..], q, buf[i..])
  {
    if i < |buf| {
      Advance(p, buf, i);
      Advance(q, buf, i);
    }
  }

  // ----- reading a size line ------------------------------------------------

  /** A CR and a LF before the line belong to what came before. */
  method SkipLead(buf: Bytes, i: nat, digits: Bytes) returns (i': nat)
    requires i <= |buf|
    ensures i <= i' <= |buf| && Same(Top(digits), buf[i..], Size(digits), buf[i'..])
  {
    i' := i;
    if |digits| == 0 {
      ghost var p := Lead;
      if i' < |buf| && buf[i'] == CR {
        Advance(p, buf, i');
        p, i' := Lead1, i' + 1;
      }
      if i' < |buf| && buf[i'] == LF {
        Advance(p, buf, i');
        p, i' := Size([]), i' + 1;
      } else {
        SameNext(p, Size([]), buf, i');
      }
    }
  }

  /** Collects digits, as many as there is room for. */
  method TakeDigits(buf: Bytes, i: nat, digits: Bytes) returns (i': nat, digits': Bytes)
    requires i <= |buf| && |digits| <= MOST_DIGITS && AllHex(digits)
    ensures i <= i' <= |buf| && |digits'| <= MOST_DIGITS && AllHex(digits')
    ensures Same(Size(digits), buf[i..], Size(digits'), buf[i'..])
    ensures i' < |buf| ==> !(IsHex(buf[i']) && |digits'| < MOST_DIGITS)
  {
    i', digits' := i, digits;
    while i' < |buf| && IsHex(buf[i']) && |digits'| < MOST_DIGITS
      invariant i <= i' <= |buf| && |digits'| <= MOST_DIGITS && AllHex(digits')
      invariant Same(Size(digits), buf[i..], Size(digits'), buf[i'..])
    {
      Advance(Size(digits'), buf, i');
      digits' := digits' + [buf[i']];
      i' := i' + 1;
    }
  }

  /** Discards the rest of the line. */
  method SkipExtension(buf: Bytes, i: nat, ghost digits: Bytes) returns (i': nat)
    requires i <= |buf| && (i < |buf| ==> !(IsHex(buf[i]) && |digits| < MOST_DIGITS))
    ensures i <= i' <= |buf| && (i' < |buf| ==> buf[i'] == CR || buf[i'] == LF)
    ensures Same(Size(digits), buf[i..], Size(digits), buf[i'..])
  {
    i' := i;
    ghost var p := Size(digits);
    while i' < |buf| && buf[i'] != CR && buf[i'] != LF
      invariant i <= i' <= |buf| && (if i' == i then p == Size(digits) else p == Ext(digits))
      invariant Same(Size(digits), buf[i..], p, buf[i'..])
    {
      Advance(p, buf, i');
      p, i' := Ext(digits), i' + 1;
    }
    SameNext(p, Size(digits), buf, i');
  }

  /** The end of the line, if it is there. */
  method EndLine(buf: Bytes, i: nat, ghost digits: Bytes) returns (i': nat, finished: bool)
    requires i <= |buf| && (i < |buf| ==> buf[i] == CR || buf[i] == LF)
    ensures i <= i' <= |buf| && (i < |buf| ==> i < i')
    ensures Same(Size(digits), buf[i..], if finished then Finish(digits) else Top(digits), buf[i'..])
  {
    i' := i;
    ghost var p := Size(digits);
    if i' < |buf| && buf[i'] == CR {
      Advance(p, buf, i');
      p, i' := LineEnd(digits), i' + 1;
    }
    if i' < |buf| && buf[i'] == LF {
      Advance(p, buf, i');
      i', finished := i' + 1, true;
    } else {
      SameNext(p, Top(digits), buf, i');
      finished := false;
    }
  }

  /** Reads as much of a size line as there is. `finished` if its end was seen. */
  method ReadSizeLine(buf: Bytes, i: nat, digits: Bytes) returns (i': nat, digits': Bytes, finished: bool)
    requires i < |buf| && |digits| <= MOST_DIGITS && AllHex(digits)
    ensures i < i' <= |buf| && |digits'| <= MOST_DIGITS && AllHex(digits')
    ensures Same(Top(digits), buf[i..], if finished then Finish(digits') else Top(digits'), buf[i'..])
  {
    i' := SkipLead(buf, i, digits);
    i', digits' := TakeDigits(buf, i', digits);
    i' := SkipExtension(buf, i', digits');
    i', finished := EndLine(buf, i', digits');
  }

  lemma ModShift(q: nat, m: nat, x: nat)
    requires m > 0
    ensures (q * m + x) % m == x % m
  {
    DivModOf(x, m);
    assert q * m + x == (q + x / m) * m + x % m;
    DivModIs(q * m + x, m, q + x / m, x % m);
  }

  lemma NextHexDigit(v: nat, d: nat)
    ensures ((v % HALF) * 16 % HALF + d) % HALF == (v * 16 + d) % HALF
  {
    var q, r := v / HALF, v % HALF;
    ModShift(q * 16, HALF, r * 16 + d);
    ModShift(r * 16 / HALF, HALF, r * 16 % HALF + d);
  }

  /** A letter's value, by way of its lower-case form. */
  method DigitValue(b: byte) returns (d: nat)
    requires IsHex(b)
    ensures d == HexDigit(b)
  {
    if 48 <= b <= 57 {
      return b - 48;
    }
    var bit := 32;
    LowerCase(b, bit);
    return BitOr(b, bit) - 97 + 10;
  }

  lemma LowerCase(b: byte, bit: nat)
    requires IsHex(b) && b > 57 && bit == 32
    ensures BitOr(b, bit) == if b < 97 then b + 32 else b
  {
    assert bit == Pow(2, 5);
    OrPowerAt(b, 5, bit, if b < 97 then 2 else 3);
  }

  /** The number that the digits stand for, in 32 bits. */
  method ParseSize(digits: Bytes) returns (size: nat)
    requires AllHex(digits)
    ensures size == Hex(digits) % HALF
  {
    size := 0;
    for j := 0 to |digits|
      invariant size == Hex(digits[..j]) % HALF
    {
      var d := DigitValue(digits[j]);
      NextHexDigit(Hex(digits[..j]), d);
      assert digits[..j + 1][..j] == digits[..j];
      size := (size * 16 % HALF + d) % HALF;
    }
    assert digits[..|digits|] == digits;
  }

  // ----- the receiver -------------------------------------------------------

  /** An unsigned word read as a signed one. */
  function AsInt(x: nat): int {
    if x % HALF < INT_LIMIT then x % HALF else x % HALF - HALF
  }

  /** How many of `n` more bytes of a plain body are kept. */
  function Kept(used: nat, n: nat, contentLength: int): int {
    if contentLength > 0 && AsInt(used + n) > contentLength then contentLength - used else n
  }

  /** The cut is right exactly as long as the size still fits an int. */
  lemma CutIsExactIff(used: nat, n: nat, contentLength: int)
    requires used < contentLength < INT_LIMIT && n <= 2048
    ensures Kept(used, n, contentLength) == (if used + n <= contentLength then n else contentLength - used)
            <==> used + n < INT_LIMIT
  {
  }

  /** How many bytes are copied of a chunk when `left` bytes of the piece are; both sides are read as ints. */
  function CopyCount(chunksize: nat, left: nat): nat {
    if AsInt(chunksize) < left then chunksize else left
  }

  /** The copy stays inside the piece exactly if the chunk size is an int. */
  lemma CopyStaysInsideIff(chunksize: nat, left: nat)
    requires 0 < chunksize < HALF && left < INT_LIMIT
    ensures CopyCount(chunksize, left) <= left <==> chunksize < INT_LIMIT
    ensures chunksize < INT_LIMIT ==> CopyCount(chunksize, left) == if chunksize < left then chunksize else left
  {
  }

  lemma CopyGoes(left: nat, buf: Bytes, i: nat, n: nat)
    requires 0 < left && i + n <= |buf| && n <= left
    ensures Run(Data(left), buf[i..]) == Run(DataLeft(left - n), buf[i + n..])
    ensures Emitted(Data(left), buf[i..]) == buf[i..i + n] + Emitted(DataLeft(left - n), buf[i + n..])
  {
    var data := buf[i..i + n];
    DataGoes(left, data, false);
    RunConcat(Data(left), data, buf[i + n..]);
    assert buf[i..] == data + buf[i + n..];
  }

  datatype Progress = More | Ended | Overrun

  class Response {
    const chunked: bool
    const contentLength: int
    var chunksize: nat
    var digits: Bytes
    var content: Bytes
    var capacity: nat

    ghost predicate Valid()
      reads this
    {
      && contentLength < INT_LIMIT && chunksize < HALF && |digits| <= MOST_DIGITS && AllHex(digits)
      && (chunksize > 0 ==> digits == []) && |content| <= capacity
    }

    /** The phase that the fields stand for. */
    ghost function State(): Phase
      reads this
    {
      if chunksize >= INT_LIMIT then Over else if chunksize > 0 then Data(chunksize) else Top(digits)
    }

    constructor (chunked: bool, contentLength: int)
      requires contentLength < INT_LIMIT
      ensures Valid() && State() == Lead && content == []
      ensures this.chunked == chunked && this.contentLength == contentLength
    {
      this.chunked := chunked;
      this.contentLength := contentLength;
      chunksize, digits, content, capacity := 0, [], [], 2048;
    }

    /** Adds bytes to the content; its buffer grows if it has to. */
    method Append(data: Bytes)
      requires Valid() && |content| + |data| < INT_LIMIT
      modifies this`content, this`capacity
      ensures Valid() && content == old(content) + data
    {
      var used := |content| + |data|;
      if used > capacity {
        if contentLength >= AsInt(used) {
          capacity := contentLength;
        } else {
          capacity := used;
        }
      }
      content := content + data;
    }

    /** Copies what there is of the current chunk, unless the count is beyond the bytes that are there. */
    method CopyData(buf: Bytes, i: nat) returns (i': nat, progress: Progress)
      requires Valid() && chunksize > 0 && i <= |buf| && |content| + |buf| - i < INT_LIMIT
      modifies this`content, this`capacity, this`chunksize
      ensures Valid() && i <= i' <= |buf|
      ensures if old(chunksize) >= INT_LIMIT then progress.Overrun? && unchanged(this) else progress.More?
      ensures progress.More? ==> chunksize + i' == old(chunksize) + i && |content| - i' == |old(content)| - i
      ensures progress.More? && i < |buf| ==> i < i'
      ensures progress.More? ==>
        && content + Emitted(State(), buf[i'..]) == old(content) + Emitted(old(State()), buf[i..])
        && Run(State(), buf[i'..]) == Run(old(State()), buf[i..])
    {
      var bytesToCopy := CopyCount(chunksize, |buf| - i);
      CopyStaysInsideIff(chunksize, |buf| - i);
      if bytesToCopy > |buf| - i {
        return i, Overrun;
      }
      CopyGoes(chunksize, buf, i, bytesToCopy);
      Append(buf[i..i + bytesToCopy]);
      i' := i + bytesToCopy;
      chunksize := chunksize - bytesToCopy;
      progress := More;
    }

    /** Reads as much of a size line as there is, and the size if that is all of it. */
    method ReadSize(buf: Bytes, i: nat) returns (i': nat, ended: bool)
      requires Valid() && chunksize == 0 && i < |buf|
      modifies this`digits, this`chunksize
      ensures Valid() && i < i' <= |buf|
      ensures ended ==> Same(old(State()), buf[i..], End, [])
      ensures !ended ==> Same(old(State()), buf[i..], State(), buf[i'..])
    {
      var finished;
      i', digits, finished := ReadSizeLine(buf, i, digits);
      if !finished {
        return i', false;
      }
      chunksize := ParseSize(digits);
      digits := [];
      if chunksize == 0 {
        StoppedRuns(End, buf[i'..]);
      }
      return i', chunksize == 0;
    }

    /** The state of the decoding loop: what is left of the piece gives what is left of the data. */
    ghost predicate OnTrack(buf: Bytes, i: nat, q: Phase, data: Bytes)
      reads this
    {
      i <= |buf| && Forget(Run(State(), buf[i..])) == q && content + Emitted(State(), buf[i..]) == data
    }

    /** Decodes one piece of a chunked body; a receiver whose copy overran is not used again. */
    method ReceiveChunked(buf: Bytes) returns (progress: Progress)
      requires Valid() && |content| + |buf| < INT_LIMIT && !State().Over?
      modifies this
      ensures var q := Forget(Run(old(State()), buf));
              content == old(content) + Emitted(old(State()), buf) &&
              if q.End? then progress.Ended? else if q.Over? then progress.Overrun?
              else progress.More? && Valid() && State() == q
    {
      ghost var q, data := Forget(Run(State(), buf)), content + Emitted(State(), buf);
      var i := 0;
      assert buf[0..] == buf;
      while i < |buf|
        invariant Valid() && OnTrack(buf, i, q, data) && |content| + |buf| - i < INT_LIMIT && !State().Over?
        decreases |buf| - i
      {
        if chunksize == 0 {
          var ended;
          i, ended := ReadSize(buf, i);
          if ended {
            return Ended;
          }
        }
        if chunksize > 0 {
          StoppedRuns(Over, buf[i..]);
          i, progress := CopyData(buf, i);
          if progress.Overrun? {
            return;
          }
        }
      }
      return More;
    }

    /** Keeps one piece of a plain body, up to the announced length. */
    method ReceivePlain(buf: Bytes)
      requires Valid() && |content| + |buf| < INT_LIMIT && (contentLength > 0 ==> |content| < contentLength)
      modifies this`content, this`capacity
      ensures Valid()
      ensures var all := old(content) + buf;
              content == if 0 < contentLength < |all| then all[..contentLength] else all
    {
      var n := |buf|;
      if contentLength > 0 && AsInt(|content| + n) > contentLength {
        n := contentLength - |content|;
      }
      Append(buf[..n]);
    }

    /** Is everything here that was announced? */
    method IsComplete() returns (complete: bool)
      requires Valid() && |content| < INT_LIMIT
      ensures complete <==> 0 < contentLength <= |content|
    {
      return contentLength > 0 && AsInt(|content|) >= contentLength;
    }
  }

  // ----- whole responses ----------------------------------------------------

  /** An empty receive is the end of the connection; the first piece may be empty. */
  ghost predicate ArePieces(pieces: seq<Bytes>) {
    |Concat(pieces)| < INT_LIMIT && forall k :: 1 <= k < |pieces| ==> pieces[k] != []
  }

  lemma {:induction false} EmittedFits(p: Phase, w: Bytes)
    ensures |Emitted(p, w)| <= |w|
    decreases w
  {
    if w != [] { EmittedFits(Step(p, w[0]), w[1..]); }
  }

  lemma {:induction false} ConcatAppend(pieces: seq<Bytes>, k: nat)
    requires k < |pieces|
    ensures Concat(pieces[..k + 1]) == Concat(pieces[..k]) + pieces[k]
    ensures |Concat(pieces[..k + 1])| <= |Concat(pieces)| && Concat(pieces[..k + 1]) <= Concat(pieces)
    decreases pieces
  {
    var rest := pieces[1..];
    assert pieces[..k + 1][1..] == rest[..k];
    if k > 0 {
      ConcatAppend(rest, k - 1);
      assert pieces[..k][1..] == rest[..k - 1];
    }
  }

  ghost predicate Stopped(p: Phase) {
    p.End? || p.Over?
  }

  /** One more piece after others. */
  lemma {:induction false} PiecesAppend(p: Phase, pieces: seq<Bytes>, u: Bytes)
    ensures var q := RunPieces(p, pieces);
            && RunPieces(p, pieces + [u]) == (if Stopped(q) then q else Forget(Run(q, u)))
            && EmittedPieces(p, pieces + [u]) == EmittedPieces(p, pieces) + (if Stopped(q) then [] else Emitted(q, u))
    decreases pieces
  {
    if pieces == [] {
      assert (pieces + [u])[1..] == [];
      if !Stopped(p) { FirstPiece(p, pieces + [u]); }
    } else if !Stopped(p) {
      var q := Forget(Run(p, pieces[0]));
      assert (pieces + [u])[1..] == pieces[1..] + [u];
      PiecesAppend(q, pieces[1..], u);
      FirstPiece(p, pieces);
      FirstPiece(p, pieces + [u]);
    }
  }

  lemma {:induction false} EmittedPiecesFit(p: Phase, pieces: seq<Bytes>)
    ensures |EmittedPieces(p, pieces)| <= |Concat(pieces)|
    decreases pieces
  {
    if pieces != [] && !Stopped(p) {
      EmittedFits(p, pieces[0]);
      EmittedPiecesFit(Forget(Run(p, pieces[0])), pieces[1..]);
    }
  }

  /** Decoding of the first `k` pieces reached an end, or as many bytes as were announced. */
  ghost predicate Enough(pieces: seq<Bytes>, k: nat, contentLength: int)
    requires k <= |pieces|
  {
    Stopped(RunPieces(Lead, pieces[..k])) || 0 < contentLength <= |EmittedPieces(Lead, pieces[..k])|
  }

  /** What the receiver holds after `k` pieces. */
  ghost predicate Holds(p: Phase, content: Bytes, pieces: seq<Bytes>, k: nat) {
    && k <= |pieces| && |content| <= |Concat(pieces[..k])|
    && content == EmittedPieces(Lead, pieces[..k]) && p == RunPieces(Lead, pieces[..k])
  }

  lemma NextPiece(p: Phase, content: Bytes, pieces: seq<Bytes>, k: nat)
    requires Holds(p, content, pieces, k) && k < |pieces| && !Stopped(p)
    ensures |content| + |Emitted(p, pieces[k])| <= |content| + |pieces[k]| <= |Concat(pieces)|
    ensures Holds(Forget(Run(p, pieces[k])), content + Emitted(p, pieces[k]), pieces, k + 1)
  {
    ConcatAppend(pieces, k);
    EmittedFits(p, pieces[k]);
    PiecesAppend(Lead, pieces[..k], pieces[k]);
    assert pieces[..k] + [pieces[k]] == pieces[..k + 1];
  }

  /** Receives a chunked body. `received` pieces are taken: up to the first that gives enough, or all of them. */
  method ReceiveAllChunked(pieces: seq<Bytes>, contentLength: int)
    returns (progress: Progress, content: Bytes, received: nat)
    requires ArePieces(pieces) && contentLength < INT_LIMIT
    ensures received <= |pieces| && content == EmittedPieces(Lead, pieces[..received])
    ensures var q := RunPieces(Lead, pieces[..received]);
            progress == if q.End? then Ended else if q.Over? then Overrun else More
    ensures received == |pieces| || Enough(pieces, received, contentLength)
    ensures forall k :: 0 < k < received ==> !Enough(pieces, k, contentLength)
  {
    var response := new Response(true, contentLength);
    received := 0;
    while received < |pieces|
      invariant response.Valid() && Holds(response.State(), response.content, pieces, received)
      invariant response.contentLength == contentLength && !Stopped(response.State())
      invariant forall k :: 0 < k <= received ==> !Enough(pieces, k, contentLength)
    {
      NextPiece(response.State(), response.content, pieces, received);
      progress := response.ReceiveChunked(pieces[received]);
      received := received + 1;
      if !progress.More? {
        return progress, response.content, received;
      }
      var complete := response.IsComplete();
      if complete {
        return More, response.content, received;
      }
    }
    return More, response.content, received;
  }

  /** Without an announced length everything up to the end of the body is received. */
  lemma {:induction false} NothingAfterTheEnd(p: Phase, pieces: seq<Bytes>, k: nat)
    requires k <= |pieces| && Stopped(RunPieces(p, pieces[..k]))
    ensures RunPieces(p, pieces) == RunPieces(p, pieces[..k])
    ensures EmittedPieces(p, pieces) == EmittedPieces(p, pieces[..k])
    decreases pieces
  {
    if k > 0 && !Stopped(p) {
      assert pieces[..k][1..] == pieces[1..][..k - 1];
      FirstPiece(p, pieces);
      FirstPiece(p, pieces[..k]);
      NothingAfterTheEnd(Forget(Run(p, pieces[0])), pieces[1..], k - 1);
    }
  }

  /** Receives a chunked body of a response that announces no length. */
  method ReceiveUnannounced(pieces: seq<Bytes>) returns (progress: Progress, content: Bytes)
    requires ArePieces(pieces)
    ensures content == EmittedPieces(Lead, pieces)
    ensures var q := RunPieces(Lead, pieces);
            progress == if q.End? then Ended else if q.Over? then Overrun else More
  {
    var received;
    progress, content, received := ReceiveAllChunked(pieces, -1);
    if Stopped(RunPieces(Lead, pieces[..received])) {
      NothingAfterTheEnd(Lead, pieces, received);
    } else {
      assert pieces[..received] == pieces;
    }
  }

  ghost function UpTo(s: Bytes, contentLength: int): Bytes {
    if 0 < contentLength < |s| then s[..contentLength] else s
  }

  /** Receives a plain body; an announced length that is not positive counts as none. */
  method ReceiveAllPlain(pieces: seq<Bytes>, contentLength: int) returns (content: Bytes)
    requires ArePieces(pieces) && contentLength < INT_LIMIT
    ensures content == UpTo(Concat(pieces), contentLength)
  {
    var response := new Response(false, contentLength);
    for k := 0 to |pieces|
      invariant response.Valid() && response.content == Concat(pieces[..k]) && response.contentLength == contentLength
      invariant contentLength > 0 ==> |response.content| < contentLength
    {
      ConcatAppend(pieces, k);
      response.ReceivePlain(pieces[k]);
      var complete := response.IsComplete();
      if complete {
        return response.content;
      }
    }
    assert pieces[..|pieces|] == pieces;
    content := response.content;
  }
}
