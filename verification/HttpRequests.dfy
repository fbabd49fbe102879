/**
 The consumers of the parser in http_request.c: the loop that feeds it from the socket,
 the URI fields, and the host of an absolute request target.

 `Served` says what happens to a connection from all the bytes the peer sent, however the
 socket delivered them; `Request.ProcessRequestLine` is the loop of http_process_request_line.
 */
module HttpRequests {
  import opened Common
  import opened RequestLine
  import opened HostValidation
  import RequestErrors
  import RequestGrammar
  import RequestSlices
  import RoundTrip

  const OS_HTTP_VERSION_10 := 1000

  // ---------- the URI fields ----------

  /** Where a counted string points: nowhere, into the receive buffer, or to memory of its own. */
  datatype Data = Nowhere | At(pos: nat) | Allocated(size: nat)

  datatype Str = Str(data: Data, len: nat)

  const EMPTY := Str(Nowhere, 0)

  /** The bytes of a string that points into the buffer. */
  function Bytes(text: Text, s: Str): Text {
    if s.data.At? then Slice(text, s.data.pos, s.data.pos + s.len) else []
  }

  datatype UriFields = UriFields(uri: Str, args: Str, exten: Str, unparsed: Str, validUnparsed: bool)

  /** The fields of a request line, as os_calloc leaves them before. */
  const NO_URI := UriFields(EMPTY, EMPTY, EMPTY, EMPTY, false)

  ghost function PathOf(text: Text, line: Line): Text {
    Slice(text, line.uriStart, RequestSlices.PathEnd(line, line.uriEnd))
  }

  /** The unparsed URI is the whole slice, and the path joined with the arguments. */
  ghost predicate Joins(text: Text, line: Line, f: UriFields) {
    && Bytes(text, f.unparsed) == Slice(text, line.uriStart, line.uriEnd)
    && Bytes(text, f.unparsed) == PathOf(text, line) + (if line.argsStart == NULL then "" else "?" + Bytes(text, f.args))
    && (Bytes(text, f.args) == "" ==> f.args == EMPTY)
    && (f.validUnparsed <==> ' ' !in Bytes(text, f.unparsed))
  }

  /** The path points into the buffer, or to memory of its own that still has to be filled. */
  ghost predicate HasPath(text: Text, line: Line, f: UriFields) {
    && f.uri.len == |PathOf(text, line)| > 0
    && if RequestSlices.Flagged(line) then f.uri.data == Allocated(f.uri.len + 1) else Bytes(text, f.uri) == PathOf(text, line)
  }

  /** Where the extension begins in the text: after the last dot of the clean part of the path. */
  function ExtensionAt(text: Text, line: Line): int {
    if 0 <= line.uriStart <= line.uriEnd <= |text| then
      RequestSlices.Extension(text, line.uriStart, RequestSlices.FirstUnclean(text, line.uriStart, line.uriStart, line.uriEnd))
    else NULL
  }

  /** The extension runs from there to the end of the path. */
  ghost predicate HasExtension(text: Text, line: Line, f: UriFields) {
    var path, e := PathOf(text, line), ExtensionAt(text, line);
    if e == NULL then f.exten == EMPTY
    else
      && 0 < e - line.uriStart <= |path| && path[e - line.uriStart - 1] == '.'
      && f.exten.data == At(e) && Bytes(text, f.exten) == path[e - line.uriStart..]
  }

  /** What the fields say of the text. */
  ghost predicate Describes(text: Text, line: Line, f: UriFields) {
    Joins(text, line, f) && HasPath(text, line, f) && HasExtension(text, line, f)
  }

  /** The positions of a parsed URI are in order, so no length wraps around. */
  lemma UriBounds(text: Text, pos: nat, r: Line)
    requires 0 < pos <= |text| && RequestSlices.Parsed(text, pos, r)
    ensures 0 <= r.uriStart < RequestSlices.PathEnd(r, r.uriEnd) <= r.uriEnd <= |text|
    ensures r.argsStart != NULL ==> r.argsStart <= r.uriEnd && text[r.argsStart - 1] == '?'
    ensures r.uriExt != NULL ==> r.uriStart < r.uriExt <= RequestSlices.PathEnd(r, r.uriEnd) && text[r.uriExt - 1] == '.'
    ensures r.uriExt == ExtensionAt(text, r)
    ensures r.spaceInUri <==> ' ' in text[r.uriStart..r.uriEnd]
  {
    RequestSlices.ParsedUri(text, pos, r);
    RequestSlices.UriExtension(text, r, r.uriEnd);
    hide RequestSlices.CleanPath, RequestSlices.Extension, RequestSlices.Token, RequestSlices.HostOk, RequestSlices.Spoilt, RequestSlices.FirstUnclean;
    var u := text[r.uriStart..r.uriEnd];
    if ' ' in u {
      var j :| 0 <= j < |u| && u[j] == ' ';
      assert text[r.uriStart + j] == ' ';
    }
    if r.spaceInUri {
      var j :| r.uriStart <= j < r.uriEnd && text[j] == ' ';
      assert u[j - r.uriStart] == ' ';
    }
  }

  /** The fields computed from the positions. */
  function FieldsOf(r: Line): UriFields
    requires 0 <= r.uriStart < RequestSlices.PathEnd(r, r.uriEnd) <= r.uriEnd
    requires r.uriExt != NULL ==> r.uriStart < r.uriExt <= RequestSlices.PathEnd(r, r.uriEnd)
  {
    var pathLength := RequestSlices.PathEnd(r, r.uriEnd) - r.uriStart;
    UriFields(
      Str(if RequestSlices.Flagged(r) then Allocated(pathLength + 1) else At(r.uriStart), pathLength),
      if r.argsStart != NULL && r.uriEnd > r.argsStart then Str(At(r.argsStart), r.uriEnd - r.argsStart) else EMPTY,
      if r.uriExt != NULL then Str(At(r.uriExt), RequestSlices.PathEnd(r, r.uriEnd) - r.uriExt) else EMPTY,
      Str(At(r.uriStart), r.uriEnd - r.uriStart),
      !r.spaceInUri)
  }

  /** The fields describe the URI: its parts join to the whole. */
  lemma UriJoin(text: Text, pos: nat, r: Line)
    requires 0 < pos <= |text| && RequestSlices.Parsed(text, pos, r)
    ensures 0 <= r.uriStart < RequestSlices.PathEnd(r, r.uriEnd) <= r.uriEnd
    ensures r.uriExt != NULL ==> r.uriStart < r.uriExt <= RequestSlices.PathEnd(r, r.uriEnd)
    ensures Describes(text, r, FieldsOf(r))
  {
    UriBounds(text, pos, r);
    hide *;
    PathJoins(text, r);
    PathExtends(text, r);
    PathSpans(text, r);
    Describing(text, r, FieldsOf(r));
  }

  lemma Describing(text: Text, r: Line, f: UriFields)
    requires Joins(text, r, f) && HasPath(text, r, f) && HasExtension(text, r, f)
    ensures Describes(text, r, f)
  {
  }

  lemma PathSpans(text: Text, r: Line)
    requires 0 <= r.uriStart < RequestSlices.PathEnd(r, r.uriEnd) <= r.uriEnd <= |text|
    requires r.uriExt != NULL ==> r.uriStart < r.uriExt <= RequestSlices.PathEnd(r, r.uriEnd)
    ensures HasPath(text, r, FieldsOf(r))
  {
    hide RequestSlices.Flagged, RequestSlices.PathEnd;
  }

  lemma PathJoins(text: Text, r: Line)
    requires 0 <= r.uriStart < RequestSlices.PathEnd(r, r.uriEnd) <= r.uriEnd <= |text|
    requires r.argsStart != NULL ==> r.argsStart <= r.uriEnd && text[r.argsStart - 1] == '?'
    requires r.uriExt != NULL ==> r.uriStart < r.uriExt <= RequestSlices.PathEnd(r, r.uriEnd)
    requires r.spaceInUri <==> ' ' in text[r.uriStart..r.uriEnd]
    ensures Joins(text, r, FieldsOf(r))
  {
    hide FieldsOf, Bytes, PathOf, Slice;
    FieldBytes(text, r);
    if r.argsStart != NULL {
      SplitAt(text, r.uriStart, r.argsStart - 1, r.uriEnd);
    } else {
      assert text[r.uriStart..r.uriEnd] + "" == text[r.uriStart..r.uriEnd];
    }
  }

  lemma FieldBytes(text: Text, r: Line)
    requires 0 <= r.uriStart < RequestSlices.PathEnd(r, r.uriEnd) <= r.uriEnd <= |text|
    requires r.uriExt != NULL ==> r.uriStart < r.uriExt <= RequestSlices.PathEnd(r, r.uriEnd)
    requires r.argsStart != NULL ==> r.argsStart <= r.uriEnd
    ensures var f := FieldsOf(r);
            && Bytes(text, f.unparsed) == text[r.uriStart..r.uriEnd] == Slice(text, r.uriStart, r.uriEnd)
            && PathOf(text, r) == text[r.uriStart..RequestSlices.PathEnd(r, r.uriEnd)]
            && (if r.argsStart != NULL then Bytes(text, f.args) == text[r.argsStart..r.uriEnd] else f.args == EMPTY)
            && (Bytes(text, f.args) == "" ==> f.args == EMPTY) && f.validUnparsed == !r.spaceInUri
  {
  }

  lemma SplitAt(text: Text, from: nat, mark: nat, end: nat)
    requires from <= mark < end <= |text| && text[mark] == '?'
    ensures text[from..end] == text[from..mark] + ("?" + text[mark + 1..end])
  {
  }

  lemma PathExtends(text: Text, r: Line)
    requires 0 <= r.uriStart < RequestSlices.PathEnd(r, r.uriEnd) <= r.uriEnd <= |text|
    requires r.uriExt != NULL ==> r.uriStart < r.uriExt <= RequestSlices.PathEnd(r, r.uriEnd) && text[r.uriExt - 1] == '.'
    requires r.uriExt == ExtensionAt(text, r)
    ensures HasExtension(text, r, FieldsOf(r))
  {
    hide RequestSlices.PathEnd, ExtensionAt;
    var end := RequestSlices.PathEnd(r, r.uriEnd);
    if r.uriExt != NULL {
      var path, exten := text[r.uriStart..end], text[r.uriExt..end];
      var n := r.uriExt - r.uriStart;
      assert Bytes(text, FieldsOf(r).exten) == exten && PathOf(text, r) == path;
      assert path[n..] == exten && path[n - 1] == text[r.uriExt - 1];
    }
  }

  // ---------- the outcome of a connection ----------

  datatype Outcome =
    | Waiting(state: Line)
    | BadRequest
    | Process(line: Line, pos: nat, host: Option<Text>)
    | ReadHeaders(line: Line, pos: nat, host: Option<Text>)

  /** A parsed line: the host of an absolute target must be acceptable. */
  function Accept(text: Text, line: Line, pos: nat): (outcome: Outcome)
    ensures !outcome.Waiting?
  {
    var absolute := line.hostStart != NULL && line.hostEnd != NULL;
    var host := if absolute then Canonical(Slice(text, line.hostStart, line.hostEnd)) else None;
    if absolute && host == None then BadRequest
    else if line.version < OS_HTTP_VERSION_10 then Process(line, pos, host)
    else ReadHeaders(line, pos, host)
  }

  /** What all the data sent so far leads to, with a receive buffer of this size. */
  function Served(data: Text, capacity: nat): Outcome {
    var fit := if |data| <= capacity then data else data[..capacity];
    match Run(fit, 0, ZERO)
    case Complete(code, line, pos) => if code == OS_OK then Accept(fit, line, pos) else BadRequest
    case Rejected(_, _) => BadRequest
    case Incomplete(line) => if |data| <= capacity then Waiting(line) else BadRequest
  }

  /** What has been received decides the outcome as soon as the parser is done with it. */
  lemma DecidedEarly(data: Text, n: nat, capacity: nat)
    requires n <= |data| && n <= capacity && !Run(data[..n], 0, ZERO).Incomplete?
    ensures Served(data, capacity) == match Run(data[..n], 0, ZERO)
                                      case Complete(code, line, pos) => if code == OS_OK then Accept(data[..n], line, pos) else BadRequest
                                      case _ => BadRequest
  {
    var fit := if |data| <= capacity then data else data[..capacity];
    assert fit == data[..n] + fit[n..];
    hide Run, Accept;
    RunPrefix(data[..n], fit[n..], 0, ZERO);
    match Run(data[..n], 0, ZERO)
    case Complete(code, line, pos) =>
      if code == OS_OK {
        SameAccept(data[..n], fit[n..], code, line, pos);
      }
    case Rejected(_, _) =>
  }

  lemma SameAccept(text: Text, more: Text, code: int, line: Line, pos: nat)
    requires Run(text, 0, ZERO) == Complete(code, line, pos)
    ensures Accept(text + more, line, pos) == Accept(text, line, pos)
  {
    hide Run, Canonical, RequestSlices.HostName;
    RequestSlices.HostSliceIsHostName(text, code, line, pos);
    if line.hostStart != NULL {
      assert Slice(text + more, line.hostStart, line.hostEnd) == Slice(text, line.hostStart, line.hostEnd);
    }
  }

  /** The assignments of http_process_request_uri. */
  method FillFields(r: Line, given: UriFields) returns (f: UriFields)
    requires given == NO_URI
    requires 0 <= r.uriStart < RequestSlices.PathEnd(r, r.uriEnd) <= r.uriEnd
    requires r.uriExt != NULL ==> r.uriStart < r.uriExt <= RequestSlices.PathEnd(r, r.uriEnd)
    ensures f == FieldsOf(r)
  {
    f := given;
    var pathEnd := if r.argsStart != NULL then r.argsStart - 1 else r.uriEnd;
    if r.complexUri || r.quotedUri {
      f := f.(uri := Str(Allocated(pathEnd - r.uriStart + 1), pathEnd - r.uriStart));
    } else {
      f := f.(uri := Str(At(r.uriStart), pathEnd - r.uriStart));
    }
    f := f.(unparsed := Str(At(r.uriStart), r.uriEnd - r.uriStart), validUnparsed := !r.spaceInUri);
    if r.uriExt != NULL {
      f := f.(exten := Str(At(r.uriExt), pathEnd - r.uriExt));
    }
    if r.argsStart != NULL && r.uriEnd > r.argsStart {
      f := f.(args := Str(At(r.argsStart), r.uriEnd - r.argsStart));
    }
  }

  /** Once decided, more data changes nothing. */
  lemma DecidedForGood(data: Text, more: Text, capacity: nat)
    requires !Served(data, capacity).Waiting?
    ensures Served(data + more, capacity) == Served(data, capacity)
  {
    hide Run, Accept;
    if |data| <= capacity {
      assert (data + more)[..|data|] == data == data[..|data|];
      DecidedEarly(data + more, |data|, capacity);
    } else {
      assert (data + more)[..capacity] == data[..capacity];
    }
  }

  /** A complete line is served by its own bytes alone, if it fits into the buffer, and refused if it does not. */
  lemma ServedByItsLine(data: Text, capacity: nat, code: int, line: Line, pos: nat)
    requires Run(data, 0, ZERO) == Complete(code, line, pos)
    ensures pos <= |data|
    ensures pos <= capacity ==> Served(data, capacity) == Served(data[..pos], capacity) && !Served(data, capacity).Waiting?
    ensures pos > capacity ==> Served(data, capacity) == BadRequest
  {
    hide Run, Accept;
    CompleteAtLineFeed(data, 0, ZERO);
    OnlyTheLineMatters(data, pos);
    if pos <= capacity {
      assert data == data[..pos] + data[pos..];
      DecidedForGood(data[..pos], data[pos..], capacity);
    } else {
      OnlyTheLineMatters(data, capacity);
    }
  }

  // ---------- which requests are accepted, and how they go on ----------

  predicate Absolute(line: Line) {
    line.hostStart != NULL && line.hostEnd != NULL
  }

  /** The name that an absolute target gives the request. */
  function HostOf(text: Text, line: Line): Option<Text> {
    if Absolute(line) then Canonical(Slice(text, line.hostStart, line.hostEnd)) else None
  }

  /**
   The data begins with this good line: it fits the buffer, a line of version 9 is a GET, and
   the host of an absolute target is acceptable.
   */
  predicate BeginsWith(data: Text, capacity: nat, line: Line, pos: nat) {
    match Run(data, 0, ZERO)
    case Complete(_, l, p) =>
      && l == line && p == pos <= capacity
      && (line.version == 9 ==> Slice(data, line.requestStart, line.methodEnd + 1) == "GET")
      && (Absolute(line) ==> Acceptable(Slice(data, line.hostStart, line.hostEnd)))
    case _ => false
  }

  predicate GoodLine(data: Text, capacity: nat) {
    match Run(data, 0, ZERO)
    case Complete(_, line, pos) => BeginsWith(data, capacity, line, pos)
    case _ => false
  }

  /** The code of GET is the code of no other method. */
  lemma CodeOfGet(m: Text)
    ensures MethodCode(m, 0) == HTTP_GET <==> m == "GET"
  {
    RoundTrip.MethodCodeByName("GET", 0);
    if MethodCode(m, 0) == HTTP_GET {
      RoundTrip.MethodCodeIsInjective(m, "GET");
    }
  }

  /** What the line's own text says of it: its code, its version, and whether it names a host. */
  lemma LineIs(text: Text, code: int, line: Line, pos: nat)
    requires Run(text, 0, ZERO) == Complete(code, line, pos)
    ensures code == OS_OK <==> (line.version == 9 ==> Slice(text, line.requestStart, line.methodEnd + 1) == "GET")
    ensures line.version == line.major * 1000 + line.minor
    ensures Absolute(line) <==> line.schemaStart != NULL
  {
    hide Run, RequestGrammar.Versioned, RequestSlices.HostName, MethodCode;
    RequestGrammar.EveryLineHasTheForm(text, code, line, pos);
    CodeOfGet(text[line.requestStart..line.methodEnd + 1]);
  }

  /** The whole outcome for data that begin with a complete line. */
  lemma ServedAs(data: Text, capacity: nat, code: int, line: Line, pos: nat)
    requires Run(data, 0, ZERO) == Complete(code, line, pos)
    ensures pos <= capacity ==> Served(data, capacity) == if code == OS_OK then Accept(data, line, pos) else BadRequest
    ensures pos > capacity ==> Served(data, capacity) == BadRequest
  {
    hide Run, Accept;
    ServedByItsLine(data, capacity, code, line, pos);
    if pos <= capacity {
      DecidedByLine(data, capacity, code, line, pos);
    }
  }

  /** A request is accepted exactly when it begins with a good line. */
  lemma AcceptedExactly(data: Text, capacity: nat)
    ensures Served(data, capacity).Process? || Served(data, capacity).ReadHeaders? <==> GoodLine(data, capacity)
  {
    hide Run, Acceptable;
    match Run(data, 0, ZERO)
    case Complete(code, line, pos) =>
      LineIs(data, code, line, pos);
      ServedAs(data, capacity, code, line, pos);
    case Rejected(_, _) => ServedPrefix(data, capacity);
    case Incomplete(_) => ServedPrefix(data, capacity);
  }

  /**
   It is processed at once exactly when the line's version is below 1.0, and its header lines are
   read otherwise; either way with that line, the position after it, and the host's final name.
   */
  lemma ServedExactly(data: Text, capacity: nat, line: Line, pos: nat, host: Option<Text>)
    ensures Served(data, capacity) == Process(line, pos, host) <==>
              BeginsWith(data, capacity, line, pos) && host == HostOf(data, line) && line.major == 0 && line.minor < 1000
    ensures Served(data, capacity) == ReadHeaders(line, pos, host) <==>
              BeginsWith(data, capacity, line, pos) && host == HostOf(data, line) && (line.major > 0 || line.minor >= 1000)
    ensures BeginsWith(data, capacity, line, pos) ==>
              0 < pos <= |data| && data[pos - 1] == LF && (HostOf(data, line).Some? <==> line.schemaStart != NULL)
  {
    hide Run, Acceptable;
    match Run(data, 0, ZERO)
    case Complete(code, l, p) =>
      LineIs(data, code, l, p);
      ServedAs(data, capacity, code, l, p);
      CompleteAtLineFeed(data, 0, ZERO);
    case Rejected(_, _) => ServedPrefix(data, capacity);
    case Incomplete(_) => ServedPrefix(data, capacity);
  }

  /** A printed line of version 1.0 or later leads on to the header lines, whatever follows it. */
  lemma PrintedReadsHeaders(m: Text, target: Text, major: nat, minor: nat, more: Text, capacity: nat) returns (line: Line)
    requires RoundTrip.IsMethod(m) && RoundTrip.IsTarget(target) && 1 <= major < 0x1_0000 && minor < 0x1_0000
    requires |RoundTrip.Print(m, target, RoundTrip.Numeral(major), RoundTrip.Numeral(minor))| <= capacity
    ensures var text := RoundTrip.Print(m, target, RoundTrip.Numeral(major), RoundTrip.Numeral(minor));
            && line.major == major && line.minor == minor
            && Served(text + more, capacity) == ReadHeaders(line, |text|, None)
  {
    hide Run, RoundTrip.Print, RoundTrip.Numeral, RoundTrip.Value, MethodCode;
    var text := RoundTrip.Print(m, target, RoundTrip.Numeral(major), RoundTrip.Numeral(minor));
    RoundTrip.NumbersRoundTrip(m, target, major, minor);
    RoundTrip.PrintThenParse(m, target, RoundTrip.Numeral(major), RoundTrip.Numeral(minor));
    line := Run(text, 0, ZERO).line;
    RunPrefix(text, more, 0, ZERO);
    ServedAs(text + more, capacity, OS_OK, line, |text|);
  }

  /** The server waits exactly while the data fit, hold no complete line, and could still become one. */
  lemma WaitsExactly(data: Text, capacity: nat)
    ensures Served(data, capacity).Waiting? <==>
              |data| <= capacity && !RequestErrors.CompletedBy(data, []) && exists more :: RequestErrors.CompletedBy(data, more)
  {
    hide Run, Accept;
    RequestErrors.RefusedExactly(data);
  }

  lemma DecidedByLine(data: Text, capacity: nat, code: int, line: Line, pos: nat)
    requires Run(data, 0, ZERO) == Complete(code, line, pos) && pos <= capacity
    ensures Served(data, capacity) == if code == OS_OK then Accept(data, line, pos) else BadRequest
  {
    CompleteAtLineFeed(data, 0, ZERO);
    OnlyTheLineMatters(data, pos);
    hide Run, Accept;
    DecidedEarly(data, pos, capacity);
    assert data == data[..pos] + data[pos..];
    if code == OS_OK {
      SameAccept(data[..pos], data[pos..], code, line, pos);
    }
  }

  /** If the buffer's share of the data is accepted, so is all of the data. */
  lemma ServedPrefix(data: Text, capacity: nat)
    requires !Run(data, 0, ZERO).Complete?
    ensures !Served(data, capacity).Process? && !Served(data, capacity).ReadHeaders?
  {
    hide Run;
    if |data| > capacity {
      assert data == data[..capacity] + data[capacity..];
      RunPrefix(data[..capacity], data[capacity..], 0, ZERO);
    }
  }

  lemma StillWaiting(text: Text, r: Line, capacity: nat)
    requires Run(text, 0, ZERO) == Run(text, |text|, r) && |text| <= capacity
    ensures Served(text, capacity) == Waiting(r)
  {
    RunEnd(text, r);
    hide Run;
  }

  /** A full buffer without a complete line: the read of no bytes counts as the end of the connection. */
  lemma BufferFull(text: Text, r: Line, rest: seq<Text>)
    requires Run(text, 0, ZERO) == Run(text, |text|, r) && rest != [] && rest[0] != []
    ensures Served(text + Concat(rest), |text|) == BadRequest
  {
    RunEnd(text, r);
    hide Run;
    assert (text + Concat(rest))[..|text|] == text;
  }

  /** More bytes after the ones the parser has used up. */
  lemma ResumeWith(text: Text, more: Text, r: Line)
    requires Run(text, 0, ZERO) == Run(text, |text|, r)
    ensures Run(text + more, 0, ZERO) == Run(text + more, |text|, r)
  {
    RunEnd(text, r);
    RunPrefix(text, more, 0, ZERO);
    hide Run;
  }

  predicate NoEmptyChunk(stream: seq<Text>) {
    forall k | 0 <= k < |stream| :: stream[k] != []
  }

  lemma ConcatSplit(stream: seq<Text>, n: nat, rest: seq<Text>)
    requires stream != [] && n <= |stream[0]|
    requires rest == (if stream[0][n..] == [] then [] else [stream[0][n..]]) + stream[1..]
    ensures stream[0][..n] + Concat(rest) == Concat(stream)
    ensures |Concat(rest)| == |Concat(stream)| - n
  {
    var left := stream[0][n..];
    assert stream[0] == stream[0][..n] + left;
    if left == [] {
      assert rest == stream[1..];
    } else {
      assert rest[1..] == stream[1..];
    }
  }

  // ---------- the request ----------

  class Request {
    const headerIn: Buffer
    const parser: HttpRequest
    var fields: UriFields

    ghost predicate Valid()
      reads this, headerIn
    {
      headerIn.Valid()
    }

    /** The parser stands where a run over all the received bytes stands. */
    ghost predicate Resumable()
      requires Valid()
      reads this, headerIn, headerIn.bytes, parser
    {
      Run(headerIn.Received(), 0, ZERO) == Run(headerIn.Received(), headerIn.pos, parser.line)
    }

    constructor (capacity: nat)
      ensures Valid() && fresh(headerIn) && fresh(headerIn.bytes) && fresh(parser)
      ensures headerIn.Received() == [] && headerIn.bytes.Length == capacity && Resumable()
    {
      headerIn := new Buffer(capacity);
      parser := new HttpRequest();
      fields := NO_URI;
    }

    /** http_process_request_uri, for the line the parser has just completed. */
    method ProcessRequestUri(ghost pos: nat)
      requires Valid() && 0 < pos <= |headerIn.Received()| && RequestSlices.Parsed(headerIn.Received(), pos, parser.line)
      requires fields == NO_URI
      modifies this`fields
      ensures Describes(headerIn.Received(), parser.line, fields)
    {
      UriJoin(headerIn.Received(), pos, parser.line);
      UriBounds(headerIn.Received(), pos, parser.line);
      hide Describes, FieldsOf, RequestSlices.Parsed, RequestSlices.PathEnd;
      fields := FillFields(parser.line, fields);
    }

    /** The part of http_process_request_line after the parser returned OS_OK. */
    method ProcessParsedLine() returns (outcome: Outcome)
      requires Valid() && fields == NO_URI && headerIn.bytes.Length < SIZE_MAX
      requires Run(headerIn.Received(), 0, ZERO) == Complete(OS_OK, parser.line, headerIn.pos)
      modifies this`fields
      ensures outcome == Accept(headerIn.Received(), parser.line, headerIn.pos)
      ensures Describes(headerIn.Received(), parser.line, fields)
    {
      hide Run, RequestSlices.Parsed, Describes, Canonical, RequestSlices.HostName;
      var r := parser.line;
      ghost var text, pos := headerIn.Received(), headerIn.pos;
      RequestSlices.FromStart(text, OS_OK, r, pos);
      RequestSlices.HostSliceIsHostName(text, OS_OK, r, pos);
      ProcessRequestUri(pos);
      var name := None;
      if r.hostStart != NULL && r.hostEnd != NULL {
        var host := new HostString(headerIn.bytes, r.hostStart, r.hostEnd - r.hostStart);
        assert host.Bytes() == Slice(text, r.hostStart, r.hostEnd);
        var rc := host.Validate(false);
        if rc == OS_DECLINED {
          return BadRequest;
        }
        name := Some(host.data[host.from..host.from + host.len]);
      }
      if r.version < OS_HTTP_VERSION_10 {
        return Process(r, headerIn.pos, name);
      }
      outcome := ReadHeaders(r, headerIn.pos, name);
    }

    /** http_read_request_header: whether there is something to parse, and what the socket still holds. */
    method ReadRequestHeader(stream: seq<Text>) returns (n: int, rest: seq<Text>)
      requires Valid() && Resumable() && NoEmptyChunk(stream)
      modifies headerIn`last, headerIn.bytes
      ensures Valid() && Resumable() && NoEmptyChunk(rest)
      ensures headerIn.Received() + Concat(rest) == old(headerIn.Received()) + Concat(stream)
      ensures n == OS_AGAIN ==> rest == stream == [] && headerIn.pos == headerIn.last == old(headerIn.last)
      ensures n == OS_ERR ==> rest == stream != [] && headerIn.pos == headerIn.last == old(headerIn.last) == headerIn.bytes.Length
      ensures n != OS_AGAIN && n != OS_ERR ==> 0 < n == headerIn.last - headerIn.pos && |Concat(rest)| <= |Concat(stream)|
      ensures n != OS_AGAIN && n != OS_ERR && old(headerIn.pos == headerIn.last) ==> |Concat(rest)| < |Concat(stream)|
    {
      hide Run;
      rest := stream;
      n := headerIn.last - headerIn.pos;
      if n > 0 {
        return;
      }
      if stream == [] {
        return OS_AGAIN, rest;
      }
      ghost var text := headerIn.Received();
      var count := headerIn.Receive(stream[0]);
      if count == 0 {
        assert headerIn.Received() == text;
        return OS_ERR, rest;
      }
      var left := stream[0][count..];
      rest := (if left == [] then [] else [left]) + stream[1..];
      ConcatSplit(stream, count, rest);
      assert text + stream[0][..count] + Concat(rest) == text + Concat(stream);
      ResumeWith(text, stream[0][..count], parser.line);
      n := count;
    }

    /**
     The loop of http_process_request_line, from one readiness event to the next. The socket
     holds the chunks of `stream`; what does not fit into the buffer stays there.
     */
    method ProcessRequestLine(stream: seq<Text>) returns (outcome: Outcome, rest: seq<Text>)
      requires Valid() && Resumable() && fields == NO_URI && headerIn.bytes.Length < SIZE_MAX
      requires NoEmptyChunk(stream)
      modifies this`fields, headerIn, headerIn.bytes, parser
      ensures Valid()
      ensures outcome == Served(old(headerIn.Received()) + Concat(stream), headerIn.bytes.Length)
      ensures headerIn.Received() + Concat(rest) == old(headerIn.Received()) + Concat(stream)
      ensures outcome.Waiting? ==> Resumable() && fields == NO_URI && rest == []
      ensures outcome.Process? || outcome.ReadHeaders? ==> Describes(headerIn.Received(), parser.line, fields)
    {
      hide Run, Served, Describes, Accept;
      ghost var data, capacity := headerIn.Received() + Concat(stream), headerIn.bytes.Length;
      rest := stream;
      var rc := OS_AGAIN;
      while true
        invariant Valid() && rc == OS_AGAIN && Resumable() && fields == NO_URI
        invariant headerIn.Received() + Concat(rest) == data
        invariant NoEmptyChunk(rest)
        decreases |Concat(rest)|, if headerIn.pos < headerIn.last then 1 else 0
      {
        if rc == OS_AGAIN {
          var n;
          n, rest := ReadRequestHeader(rest);
          if n == OS_AGAIN {
            StillWaiting(headerIn.Received(), parser.line, capacity);
            assert data == headerIn.Received();
            return Waiting(parser.line), rest;
          }
          if n == OS_ERR {
            BufferFull(headerIn.Received(), parser.line, rest);
            return BadRequest, rest;
          }
        }
        ghost var text := headerIn.Received();
        ResultCodes(text, headerIn.pos, parser.line);
        rc := parser.Parse(headerIn);
        if rc != OS_AGAIN {
          assert data[..|text|] == text;
          DecidedEarly(data, |text|, capacity);
          if rc == OS_OK {
            outcome := ProcessParsedLine();
            return;
          }
          return BadRequest, rest;
        }
        RunEnd(text, parser.line);
      }
    }
  }
}
