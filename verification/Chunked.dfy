/**
  The decoder for the body of an HTTP response that arrives in pieces: chunked transfer coding (section
  4.1 of RFC 7230), or plain bytes cut off at the Content-Length.
 */
module Chunked {
  import opened Digits
  import opened Words

  const CR: byte := 13
  const LF: byte := 10
  const MOST_DIGITS: nat := 31
  const INT_LIMIT: nat := 0x8000_0000

  // ----- the decoder as an automaton over bytes -----------------------------

  predicate IsHex(b: byte) {
    48 <= b <= 57 || 65 <= b <= 70 || 97 <= b <= 102
  }

  function HexDigit(b: byte): (d: nat)
    ensures d < 16
  {
    if 48 <= b <= 57 then b - 48 else if 65 <= b <= 70 then b - 55 else if 97 <= b <= 102 then b - 87 else 0
  }

  function Hex(ds: Bytes): nat {
    if ds == [] then 0 else Hex(ds[..|ds|-1]) * 16 + HexDigit(ds[|ds|-1])
  }

  /** Where the decoder is, if it sees its input in one piece. */
  datatype Phase =
    | Lead                    // before a size line: one CR and one LF may be skipped
    | Lead1                   // a CR was skipped
    | Size(ds: Bytes)         // in the digits of a size line
    | Ext(ds: Bytes)          // in the rest of a size line
    | LineEnd(ds: Bytes)      // after the CR of a size line
    | Data(left: nat)         // in the data of a chunk
    | Over                    // a size that an int cannot hold: what happens then is not defined
    | End                     // after the line of the last chunk

  ghost function Finish(ds: Bytes): Phase {
    var size := Hex(ds) % HALF;
    if size == 0 then End else if size < INT_LIMIT then Data(size) else Over
  }

  ghost function InLine(ds: Bytes, b: byte): Phase {
    if b == LF then Finish(ds)
    else if b == CR then LineEnd(ds)
    else if IsHex(b) && |ds| < MOST_DIGITS then Size(ds + [b])
    else Ext(ds)
  }

  ghost function Step(p: Phase, b: byte): Phase {
    match p
    case Lead => if b == CR then Lead1 else if b == LF then Size([]) else InLine([], b)
    case Lead1 => if b == LF then Size([]) else InLine([], b)
    case Size(ds) => InLine(ds, b)
    case Ext(ds) => if b == LF then Finish(ds) else if b == CR then LineEnd(ds) else Ext(ds)
    case LineEnd(ds) =>
      if b == LF then Finish(ds)
      else if ds != [] then InLine(ds, b)
      else if b == CR then Lead1 else InLine([], b)
    case Data(left) => if left <= 1 then Lead else Data(left - 1)
    case Over => Over
    case End => End
  }

  ghost function Run(p: Phase, w: Bytes): Phase
    decreases w
  {
    if w == [] then p else Run(Step(p, w[0]), w[1..])
  }

  /** The data among the bytes. */
  ghost function Emitted(p: Phase, w: Bytes): Bytes
    decreases w
  {
    if w == [] then [] else (if p.Data? then [w[0]] else []) + Emitted(Step(p, w[0]), w[1..])
  }

  /** What is kept between pieces: only the size left and the digits collected. */
  ghost function Forget(p: Phase): Phase {
    match p
    case Lead1 => Lead
    case Size(ds) => if ds == [] then Lead else p
    case Ext(ds) => if ds == [] then Lead else Size(ds)
    case LineEnd(ds) => if ds == [] then Lead else Size(ds)
    case _ => p
  }

  ghost function RunPieces(p: Phase, pieces: seq<Bytes>): Phase
    decreases pieces
  {
    if pieces == [] || p.End? || p.Over? then p else RunPieces(Forget(Run(p, pieces[0])), pieces[1..])
  }

  ghost function EmittedPieces(p: Phase, pieces: seq<Bytes>): Bytes
    decreases pieces
  {
    if pieces == [] || p.End? || p.Over? then []
    else Emitted(p, pieces[0]) + EmittedPieces(Forget(Run(p, pieces[0])), pieces[1..])
  }

  ghost function Concat(pieces: seq<Bytes>): Bytes {
    if pieces == [] then [] else pieces[0] + Concat(pieces[1..])
  }

  // ----- independence of splitting ------------------------------------------

  lemma {:induction false} RunConcat(p: Phase, u: Bytes, v: Bytes)
    ensures Run(p, u + v) == Run(Run(p, u), v)
    ensures Emitted(p, u + v) == Emitted(p, u) + Emitted(Run(p, u), v)
    decreases u
  {
    if u == [] {
      assert u + v == v;
    } else {
      assert (u + v)[1..] == u[1..] + v;
      RunConcat(Step(p, u[0]), u[1..], v);
    }
  }

  lemma {:induction false} StoppedRuns(p: Phase, w: Bytes)
    requires p.End? || p.Over?
    ensures Run(p, w) == p && Emitted(p, w) == []
  {
    if w != [] { StoppedRuns(p, w[1..]); }
  }

  /** No phase holds more digits than there is room for. */
  ghost predicate FewDigits(p: Phase) {
    p.Size? || p.Ext? || p.LineEnd? ==> |p.ds| <= MOST_DIGITS
  }

  /** The bytes before which a split leaves no mark. */
  ghost predicate Harmless(p: Phase, b: byte) {
    match p
    case Lead1 => b != CR
    case Size(ds) => ds != [] || (b != CR && b != LF)
    case Ext(ds) => !(IsHex(b) && |ds| < MOST_DIGITS) && (ds != [] || (b != CR && b != LF))
    case LineEnd(ds) => ds != [] || b != LF
    case _ => true
  }

  /** Before other bytes the decoder does something else after a split. */
  lemma StepsAlikeIff(p: Phase, b: byte)
    requires FewDigits(p)
    ensures Step(Forget(p), b) == Step(p, b) <==> Harmless(p, b)
    ensures FewDigits(Step(p, b))
  {
  }

  /** In which phases a split can leave a mark at all. */
  lemma AlwaysAlikeIff(p: Phase)
    requires FewDigits(p)
    ensures (forall b :: Step(Forget(p), b) == Step(p, b))
       <==> !(p.Lead1? || p == Size([]) || p == LineEnd([]) || (p.Ext? && |p.ds| < MOST_DIGITS))
  {
    StepsAlikeIff(p, CR);
    StepsAlikeIff(p, LF);
    StepsAlikeIff(p, 48);
    forall b ensures Step(Forget(p), b) == Step(p, b) <==> Harmless(p, b) {
      StepsAlikeIff(p, b);
    }
  }

  /** The phases after each byte, in one piece and in pieces. */
  ghost function Trace(p: Phase, w: Bytes): (t: seq<Phase>)
    ensures |t| == |w|
    decreases w
  {
    if w == [] then [] else [Step(p, w[0])] + Trace(Step(p, w[0]), w[1..])
  }

  ghost function TracePieces(p: Phase, pieces: seq<Bytes>): (t: seq<Phase>)
    ensures |t| == |Concat(pieces)|
    decreases pieces
  {
    if pieces == [] then [] else Trace(p, pieces[0]) + TracePieces(Forget(Run(p, pieces[0])), pieces[1..])
  }

  /** Every piece starts with a byte before which a split leaves no mark, in the phase of the unsplit body. */
  ghost predicate SafelySplit(p: Phase, pieces: seq<Bytes>)
    decreases pieces
  {
    pieces == [] ||
    (var w := Concat(pieces); (w == [] || Harmless(p, w[0])) && SafelySplit(Run(p, pieces[0]), pieces[1..]))
  }

  lemma {:induction false} TraceConcat(p: Phase, u: Bytes, v: Bytes)
    ensures Trace(p, u + v) == Trace(p, u) + Trace(Run(p, u), v)
    decreases u
  {
    if u == [] {
      assert u + v == v;
    } else {
      assert (u + v)[1..] == u[1..] + v;
      TraceConcat(Step(p, u[0]), u[1..], v);
    }
  }

  lemma {:induction false} RunKeepsFewDigits(p: Phase, w: Bytes)
    requires FewDigits(p)
    ensures FewDigits(Run(p, w))
    decreases w
  {
    if w != [] {
      StepsAlikeIff(p, w[0]);
      RunKeepsFewDigits(Step(p, w[0]), w[1..]);
    }
  }

  /** Steps are alike over a piece exactly if the first one is. */
  lemma TracesAgreeIff(p: Phase, u: Bytes)
    requires FewDigits(p) && u != []
    ensures Trace(Forget(p), u) == Trace(p, u) <==> Harmless(p, u[0])
    ensures Harmless(p, u[0]) ==> Run(Forget(p), u) == Run(p, u) && Emitted(Forget(p), u) == Emitted(p, u)
  {
    StepsAlikeIff(p, u[0]);
    assert Trace(Forget(p), u)[0] == Step(Forget(p), u[0]) && Trace(p, u)[0] == Step(p, u[0]);
  }

  /**
    For any bytes and any partition: decoding in pieces goes through the same phases as decoding in one
    piece exactly if every split leaves no mark.
   */
  lemma {:induction false} SameStepsIff(p: Phase, pieces: seq<Bytes>)
    requires FewDigits(p)
    ensures TracePieces(Forget(p), pieces) == Trace(p, Concat(pieces)) <==> SafelySplit(p, pieces)
    decreases pieces
  {
    if pieces != [] {
      var u, rest := pieces[0], pieces[1..];
      var v, q := Concat(rest), Run(p, u);
      RunKeepsFewDigits(p, u);
      SameStepsIff(q, rest);
      if u == [] {
        assert u + v == v;
      } else {
        TraceConcat(p, u, v);
        TracesAgreeIff(p, u);
        SplitEqual(Trace(Forget(p), u), TracePieces(Forget(Run(Forget(p), u)), rest), Trace(p, u), Trace(q, v));
      }
    }
  }

  lemma SplitEqual<T>(a: seq<T>, b: seq<T>, c: seq<T>, d: seq<T>)
    requires |a| == |c|
    ensures a + b == c + d <==> a == c && b == d
  {
    if a + b == c + d {
      assert a == (a + b)[..|a|] && b == (a + b)[|a|..];
      assert c == (c + d)[..|c|] && d == (c + d)[|c|..];
    }
  }

  lemma PieceAlike(p: Phase, u: Bytes)
    requires FewDigits(p) && (u != [] ==> Harmless(p, u[0]))
    ensures Forget(Run(Forget(p), u)) == Forget(Run(p, u)) && Emitted(Forget(p), u) == Emitted(p, u)
  {
    if u != [] { TracesAgreeIff(p, u); }
  }

  lemma FirstPiece(p: Phase, pieces: seq<Bytes>)
    requires pieces != [] && !p.End? && !p.Over?
    ensures var q := Forget(Run(p, pieces[0]));
            && EmittedPieces(p, pieces) == Emitted(p, pieces[0]) + EmittedPieces(q, pieces[1..])
            && RunPieces(p, pieces) == RunPieces(q, pieces[1..])
  {
  }

  /** So the data and the final state do not depend on the splitting, for any bytes safely split. */
  lemma {:induction false} SplittingDoesNotMatter(p: Phase, pieces: seq<Bytes>)
    requires FewDigits(p) && SafelySplit(p, pieces)
    ensures RunPieces(Forget(p), pieces) == Forget(Run(p, Concat(pieces)))
    ensures EmittedPieces(Forget(p), pieces) == Emitted(p, Concat(pieces))
    decreases pieces
  {
    if p.End? || p.Over? {
      StoppedRuns(p, Concat(pieces));
    } else if pieces != [] {
      var u, v := pieces[0], Concat(pieces[1..]);
      RunConcat(p, u, v);
      RunKeepsFewDigits(p, u);
      SplittingDoesNotMatter(Run(p, u), pieces[1..]);
      PieceAlike(p, u);
      FirstPiece(Forget(p), pieces);
    }
  }

  // ----- bodies that are well formed ----------------------------------------

  /** The bytes that may come next in a well-formed body, with or without extensions; lines end in CR LF or LF. */
  ghost predicate Allowed(p: Phase, b: byte, extended: bool) {
    match p
    case Lead => b == CR || b == LF || IsHex(b)
    case Lead1 => b == LF
    case Size(ds) => (IsHex(b) && |ds| < MOST_DIGITS) || (ds != [] && (extended || b == CR || b == LF))
    case Ext(ds) => ds != [] && extended
    case LineEnd(ds) => ds != [] && b == LF
    case _ => true
  }

  ghost predicate WellFormed(p: Phase, w: Bytes, extended: bool)
    decreases w
  {
    w == [] || (Allowed(p, w[0], extended) && WellFormed(Step(p, w[0]), w[1..], extended))
  }

  lemma {:induction false} WellFormedConcat(p: Phase, u: Bytes, v: Bytes, extended: bool)
    ensures WellFormed(p, u + v, extended) <==> WellFormed(p, u, extended) && WellFormed(Run(p, u), v, extended)
    decreases u
  {
    if u == [] {
      assert u + v == v;
    } else {
      assert (u + v)[1..] == u[1..] + v;
      WellFormedConcat(Step(p, u[0]), u[1..], v, extended);
    }
  }

  /** Some piece starts, inside an extension, with a digit that the size has room for. */
  ghost predicate CutBeforeDigit(p: Phase, pieces: seq<Bytes>)
    decreases pieces
  {
    pieces != [] &&
    ((var w := Concat(pieces); p.Ext? && w != [] && IsHex(w[0]) && |p.ds| < MOST_DIGITS)
     || CutBeforeDigit(Run(p, pieces[0]), pieces[1..]))
  }

  /** A well-formed body is safely split exactly if it is not cut there; without extensions it always is. */
  lemma {:induction false} WellFormedIsSafeIff(p: Phase, pieces: seq<Bytes>, extended: bool)
    requires WellFormed(p, Concat(pieces), extended)
    ensures SafelySplit(p, pieces) <==> !CutBeforeDigit(p, pieces)
    ensures !extended ==> SafelySplit(p, pieces)
    decreases pieces
  {
    if pieces != [] {
      WellFormedConcat(p, pieces[0], Concat(pieces[1..]), extended);
      WellFormedIsSafeIff(Run(p, pieces[0]), pieces[1..], extended);
    }
  }

  lemma RunOne(p: Phase, a: byte, w: Bytes)
    ensures Run(p, [a] + w) == Run(Step(p, a), w)
  {
    assert ([a] + w)[1..] == w;
  }

  lemma RunThree(p: Phase, a: byte, b: byte, c: byte)
    ensures Run(p, [a, b, c]) == Step(Step(Step(p, a), b), c)
  {
    assert [a, b, c] == [a] + ([b] + ([c] + []));
    RunOne(p, a, [b] + ([c] + []));
    RunOne(Step(p, a), b, [c] + []);
    RunOne(Step(Step(p, a), b), c, []);
  }

  lemma HexOfTwo(a: byte, b: byte)
    ensures Hex([a]) == HexDigit(a) && Hex([a, b]) == 16 * HexDigit(a) + HexDigit(b)
  {
    assert [a][..0] == [] && [a, b][..1] == [a];
  }

  lemma RunOfTwoPieces(p: Phase, u: Bytes, v: Bytes)
    requires !p.End? && !p.Over? && !Run(p, u).End? && !Run(p, u).Over?
    ensures RunPieces(p, [u, v]) == Forget(Run(Forget(Run(p, u)), v))
  {
    assert [u, v][1..] == [v] && [v][1..] == [];
    var q := Forget(Run(p, u));
    assert RunPieces(q, [v]) == RunPieces(Forget(Run(q, v)), []);
  }

  lemma ToExtension(a: byte, b: byte)
    requires IsHex(a) && !IsHex(b) && b != CR && b != LF
    ensures Run(Lead, [a, b]) == Ext([a])
  {
    assert [a, b] == [a] + ([b] + []) && [] + [a] == [a];
    RunOne(Lead, a, [b] + []);
    RunOne(Size([a]), b, []);
  }

  lemma LineAfter(ds: Bytes, b: byte)
    requires IsHex(b) && |ds| < MOST_DIGITS
    ensures Run(Ext(ds), [b, CR, LF]) == Finish(ds) && Run(Size(ds), [b, CR, LF]) == Finish(ds + [b])
  {
    RunThree(Ext(ds), b, CR, LF);
    RunThree(Size(ds), b, CR, LF);
  }

  /** A size line with an extension, whole and split: the digit after the split joins the size. */
  lemma ASplitExtensionIsMisread()
    ensures var u: Bytes, v: Bytes := [49, 59], [97, CR, LF];   // "1;" and "a"
            Run(Lead, u + v) == Data(1) && RunPieces(Lead, [u, v]) == Data(0x1a)
  {
    var u: Bytes, v: Bytes := [49, 59], [97, CR, LF];
    RunConcat(Lead, u, v);
    ToExtension(49, 59);
    LineAfter([49], 97);
    HexOfTwo(49, 97);
    RunOfTwoPieces(Lead, u, v);
  }

  /** No extension is needed for a split to matter: an empty line is skipped once more after it. */
  lemma ASplitEmptyLineIsSkipped()
    ensures var u: Bytes := [CR, LF]; Run(Lead, u + u) == End && RunPieces(Lead, [u, u]) == Lead
  {
    var u: Bytes := [CR, LF];
    RunTwo(Lead, CR, LF);
    RunTwo(Size([]), CR, LF);
    RunConcat(Lead, u, u);
    RunOfTwoPieces(Lead, u, u);
  }

  lemma RunTwo(p: Phase, a: byte, b: byte)
    ensures Run(p, [a, b]) == Step(Step(p, a), b)
  {
    assert [a, b] == [a] + ([b] + []);
    RunOne(p, a, [b] + []);
    RunOne(Step(p, a), b, []);
  }

  // ----- what a chunked body stands for -------------------------------------

  datatype Chunk = Chunk(line: Bytes, extension: Bytes, data: Bytes)

  ghost predicate AllHex(ds: Bytes) {
    forall i :: 0 <= i < |ds| ==> IsHex(ds[i])
  }

  /** The digits of a size line, at most as many as the decoder keeps. */
  ghost predicate IsSize(ds: Bytes) {
    0 < |ds| <= MOST_DIGITS && AllHex(ds)
  }

  /** What may follow the digits on their line; extensions start with a semicolon or a blank before it. */
  ghost predicate IsExtension(ext: Bytes) {
    ext == [] || (!IsHex(ext[0]) && forall i :: 0 <= i < |ext| ==> ext[i] != CR && ext[i] != LF)
  }

  ghost predicate IsChunk(c: Chunk) {
    && IsSize(c.line) && IsExtension(c.extension)
    && Hex(c.line) == |c.data| && 0 < |c.data| < INT_LIMIT
  }

  ghost predicate IsLast(c: Chunk) {
    IsSize(c.line) && IsExtension(c.extension) && Hex(c.line) == 0
  }

  ghost predicate AreChunks(chunks: seq<Chunk>) {
    forall i :: 0 <= i < |chunks| ==> IsChunk(chunks[i])
  }

  ghost predicate AnyExtension(chunks: seq<Chunk>, last: Chunk) {
    last.extension != [] || exists i :: 0 <= i < |chunks| && chunks[i].extension != []
  }

  /** Section 4.1 of RFC 7230: chunks and the line of the last chunk. */
  ghost function Wire(chunks: seq<Chunk>, last: Chunk): Bytes {
    if chunks == [] then Line(last)
    else Line(chunks[0]) + (chunks[0].data + [CR, LF]) + Wire(chunks[1..], last)
  }

  ghost function Line(c: Chunk): Bytes {
    c.line + (c.extension + [CR, LF])
  }

  ghost function AllData(chunks: seq<Chunk>): Bytes {
    if chunks == [] then [] else chunks[0].data + AllData(chunks[1..])
  }

  /** From one phase to another, without a byte out of place, giving out data on the way. */
  ghost predicate Goes(p: Phase, w: Bytes, q: Phase, data: Bytes, extended: bool) {
    WellFormed(p, w, extended) && Run(p, w) == q && Emitted(p, w) == data
  }

  lemma GoesThen(p: Phase, u: Bytes, q: Phase, x: Bytes, v: Bytes, r: Phase, y: Bytes, extended: bool)
    requires Goes(p, u, q, x, extended) && Goes(q, v, r, y, extended)
    ensures Goes(p, u + v, r, x + y, extended)
  {
    RunConcat(p, u, v);
    WellFormedConcat(p, u, v, extended);
  }

  lemma GoesOverLine(p: Phase, q: Phase, extended: bool)
    requires Allowed(p, CR, extended) && !p.Data? && Step(p, CR) == q && Allowed(q, LF, extended) && !q.Data?
    ensures Goes(p, [CR, LF], Step(q, LF), [], extended)
  {
    assert [CR, LF][1..] == [LF] && [LF][1..] == [];
    assert WellFormed(Step(q, LF), [], extended) && Run(Step(q, LF), []) == Step(q, LF);
    assert WellFormed(q, [LF], extended) && Run(q, [LF]) == Step(q, LF) && Emitted(q, [LF]) == [];
  }

  lemma {:induction false} DigitsGo(ds: Bytes, more: Bytes, extended: bool)
    requires |ds| + |more| <= MOST_DIGITS && AllHex(more)
    ensures Goes(Size(ds), more, Size(ds + more), [], extended)
    decreases more
  {
    if more == [] {
      assert ds + more == ds;
    } else {
      assert ds + [more[0]] + more[1..] == ds + more;
      DigitsGo(ds + [more[0]], more[1..], extended);
    }
  }

  lemma {:induction false} ExtensionGoesOn(ds: Bytes, ext: Bytes)
    requires ds != [] && forall i :: 0 <= i < |ext| ==> ext[i] != CR && ext[i] != LF
    ensures Goes(Ext(ds), ext, Ext(ds), [], true)
    decreases ext
  {
    if ext != [] { ExtensionGoesOn(ds, ext[1..]); }
  }

  lemma ExtensionGoes(ds: Bytes, ext: Bytes, extended: bool)
    requires ds != [] && IsExtension(ext) && (ext != [] ==> extended)
    ensures Goes(Size(ds), ext, if ext == [] then Size(ds) else Ext(ds), [], extended)
  {
    if ext != [] { ExtensionGoesOn(ds, ext[1..]); }
  }

  ghost function DataLeft(left: nat): Phase {
    if left == 0 then Lead else Data(left)
  }

  lemma {:induction false} DataGoes(left: nat, data: Bytes, extended: bool)
    requires |data| <= left
    ensures Goes(DataLeft(left), data, DataLeft(left - |data|), data, extended)
    decreases data
  {
    if data != [] {
      DataGoes(left - 1, data[1..], extended);
      assert data == [data[0]] + data[1..];
    }
  }

  lemma LineGoes(c: Chunk, extended: bool)
    requires IsSize(c.line) && IsExtension(c.extension) && (c.extension != [] ==> extended)
    ensures Goes(Size([]), Line(c), Finish(c.line), [], extended)
  {
    var ds, ext := c.line, c.extension;
    var p := if ext == [] then Size(ds) else Ext(ds);
    DigitsGo([], ds, extended);
    assert [] + ds == ds;
    ExtensionGoes(ds, ext, extended);
    GoesOverLine(p, LineEnd(ds), extended);
    GoesThen(Size(ds), ext, p, [], [CR, LF], Finish(ds), [], extended);
    GoesThen(Size([]), ds, Size(ds), [], ext + [CR, LF], Finish(ds), [], extended);
  }

  lemma ChunkGoes(c: Chunk, extended: bool)
    requires IsChunk(c) && (c.extension != [] ==> extended)
    ensures Goes(Size([]), Line(c) + (c.data + [CR, LF]), Size([]), c.data, extended)
  {
    LineGoes(c, extended);
    DataGoes(|c.data|, c.data, extended);
    GoesOverLine(Lead, Lead1, extended);
    assert c.data + [] == c.data;
    GoesThen(Data(|c.data|), c.data, Lead, c.data, [CR, LF], Size([]), [], extended);
    assert [] + c.data == c.data;
    GoesThen(Size([]), Line(c), Data(|c.data|), [], c.data + [CR, LF], Size([]), c.data, extended);
  }

  lemma {:induction false} WireGoes(chunks: seq<Chunk>, last: Chunk, extended: bool)
    requires AreChunks(chunks) && IsLast(last) && (AnyExtension(chunks, last) ==> extended)
    ensures Goes(Size([]), Wire(chunks, last), End, AllData(chunks), extended)
    decreases chunks
  {
    if chunks == [] {
      LineGoes(last, extended);
    } else {
      var c, more := chunks[0], chunks[1..];
      ChunkGoes(c, extended);
      assert forall i :: 0 <= i < |more| ==> more[i] == chunks[i + 1];
      WireGoes(more, last, extended);
      GoesThen(Size([]), Line(c) + (c.data + [CR, LF]), Size([]), c.data,
               Wire(more, last), End, AllData(more), extended);
    }
  }

  lemma {:induction false} AnythingAfterTheEnd(w: Bytes, extended: bool)
    ensures Goes(End, w, End, [], extended)
  {
    if w != [] { AnythingAfterTheEnd(w[1..], extended); }
  }

  /** At the very start of a body there is no line end to skip, and none is missed. */
  lemma StartsLikeALine(w: Bytes, q: Phase, data: Bytes, extended: bool)
    requires Goes(Size([]), w, q, data, extended) && w != []
    ensures Goes(Lead, w, q, data, extended)
  {
  }

  lemma WireWithTail(chunks: seq<Chunk>, last: Chunk, tail: Bytes, extended: bool)
    requires AreChunks(chunks) && IsLast(last) && (AnyExtension(chunks, last) ==> extended)
    ensures Goes(Lead, Wire(chunks, last) + tail, End, AllData(chunks), extended)
  {
    WireGoes(chunks, last, extended);
    AnythingAfterTheEnd(tail, extended);
    GoesThen(Size([]), Wire(chunks, last), End, AllData(chunks), tail, End, [], extended);
    assert AllData(chunks) + [] == AllData(chunks);
    StartsLikeALine(Wire(chunks, last) + tail, End, AllData(chunks), extended);
  }

  /**
    A chunked body with extensions, split into pieces, goes through the same phases as in one piece exactly
    if no piece starts with a digit inside an extension; then its data comes out and decoding ends with it.
   */
  lemma ExtendedBodyDecodes(chunks: seq<Chunk>, last: Chunk, tail: Bytes, pieces: seq<Bytes>)
    requires AreChunks(chunks) && IsLast(last) && Concat(pieces) == Wire(chunks, last) + tail
    ensures TracePieces(Lead, pieces) == Trace(Lead, Concat(pieces)) <==> !CutBeforeDigit(Lead, pieces)
    ensures !CutBeforeDigit(Lead, pieces) ==>
      RunPieces(Lead, pieces) == End && EmittedPieces(Lead, pieces) == AllData(chunks)
  {
    WireWithTail(chunks, last, tail, true);
    WellFormedIsSafeIff(Lead, pieces, true);
    SameStepsIff(Lead, pieces);
    if SafelySplit(Lead, pieces) {
      SplittingDoesNotMatter(Lead, pieces);
    }
  }

  /** Without extensions any splitting will do. */
  lemma ChunkedBodyDecodes(chunks: seq<Chunk>, last: Chunk, tail: Bytes, pieces: seq<Bytes>)
    requires AreChunks(chunks) && IsLast(last) && !AnyExtension(chunks, last)
    requires Concat(pieces) == Wire(chunks, last) + tail
    ensures RunPieces(Lead, pieces) == End && EmittedPieces(Lead, pieces) == AllData(chunks)
  {
    WireWithTail(chunks, last, tail, false);
    WellFormedIsSafeIff(Lead, pieces, false);
    SplittingDoesNotMatter(Lead, pieces);
  }

  /** `b` is the character for the hexadecimal digit `d`, in either case. */
  predicate Spells(b: byte, d: nat) {
    || (d < 10 && b == '0' as int + d)
    || (10 <= d < 16 && (b == 'A' as int + (d - 10) || b == 'a' as int + (d - 10)))
  }

  lemma HexIff(b: byte)
    ensures IsHex(b) <==> exists d :: Spells(b, d)
    ensures forall d :: Spells(b, d) ==> HexDigit(b) == d
  {
    if IsHex(b) { assert Spells(b, HexDigit(b)); }
  }

  /** The digits of a size line are a number in base 16. */
  lemma {:induction false} HexIsValue(ds: Bytes, vs: seq<nat>)
    requires |vs| == |ds| && forall i :: 0 <= i < |ds| ==> Spells(ds[i], vs[i])
    ensures AllHex(ds) && Hex(ds) == Value(16, vs)
  {
    if ds != [] {
      HexIff(ds[|ds|-1]);
      HexIsValue(ds[..|ds|-1], vs[..|ds|-1]);
    }
  }

  /** Digits after the thirty-first are not collected; what follows them on the line is not either. */
  lemma {:induction false} DigitsAreCollected(ds: Bytes)
    requires AllHex(ds)
    ensures Run(Size([]), ds) == if |ds| <= 31 then Size(ds) else Ext(ds[..31])
  {
    if ds != [] {
      var before, last := ds[..|ds|-1], ds[|ds|-1];
      DigitsAreCollected(before);
      RunConcat(Size([]), before, [last]);
      assert ds == before + [last];
      RunOne(Run(Size([]), before), last, []);
      assert |ds| > 32 ==> before[..31] == ds[..31];
    }
  }

  /** A size line leads to a size that cannot be copied exactly if its low 32 bits are not an int. */
  lemma SizeOverrunsIff(c: Chunk)
    requires IsSize(c.line) && IsExtension(c.extension)
    ensures Run(Lead, Line(c)) == Over <==> Hex(c.line) % HALF >= INT_LIMIT
  {
    LineGoes(c, true);
    StartsLikeALine(Line(c), Finish(c.line), [], true);
  }

  lemma {:induction false} HexThenZeros(ds: Bytes, n: nat)
    ensures Hex(ds + seq(n, i => 48)) == Hex(ds) * Pow(16, n)
  {
    if n == 0 {
      assert ds + seq(n, i => 48) == ds;
    } else {
      var more := ds + seq(n - 1, i => 48);
      HexThenZeros(ds, n - 1);
      assert ds + seq(n, i => 48) == more + [48];
      assert (more + [48])[..|more|] == more;
      MulAssociates(Hex(ds), Pow(16, n - 1), 16);
    }
  }

  /** The line "80000000" is one of those. */
  lemma SomeSizeOverruns()
    ensures Run(Lead, [56, 48, 48, 48, 48, 48, 48, 48, CR, LF]) == Over
  {
    var ds: Bytes := [56] + seq(7, i => 48);
    HexThenZeros([56], 7);
    HexOfTwo(56, 48);
    assert Pow(16, 7) == 0x1000_0000;
    SizeOverrunsIff(Chunk(ds, [], []));
    assert ds + ([] + [CR, LF]) == [56, 48, 48, 48, 48, 48, 48, 48, CR, LF];
  }
}
