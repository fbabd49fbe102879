/**
 The resumable parser of the HTTP request line, http_parse_request_line.

 Positions are indices into the text received so far; NULL stands for a null pointer.
 `Dispatch` is the body of the parser's switch for one byte, `Run` the loop around it
 from any state and position, and `HttpRequest.Parse` the loop in place.
 */
module RequestLine {
  import opened Common

  const LF: Byte := '\n'
  const CR: Byte := '\r'
  const NUL: Byte := '\0'
  const NULL := -1

  const INVALID_METHOD := 10
  const INVALID_REQUEST := 11
  const INVALID_09_METHOD := 12

  const HTTP_GET := 0x0002
  const HTTP_HEAD := 0x0004
  const HTTP_POST := 0x0008
  const HTTP_PUT := 0x0010
  const HTTP_DELETE := 0x0020
  const HTTP_MKCOL := 0x0040
  const HTTP_COPY := 0x0080
  const HTTP_MOVE := 0x0100
  const HTTP_OPTIONS := 0x0200
  const HTTP_PROPFIND := 0x0400
  const HTTP_PROPPATCH := 0x0800
  const HTTP_LOCK := 0x1000
  const HTTP_UNLOCK := 0x2000
  const HTTP_PATCH := 0x4000
  const HTTP_TRACE := 0x8000

  datatype State =
    | Start | Method | SpacesBeforeUri
    | Schema | SchemaSlash | SchemaSlashSlash
    | HostStart | Host | HostEnd | HostIpLiteral | Port | HostHttp09
    | AfterSlashInUri | CheckUri | CheckUriHttp09 | Uri | Http09
    | HttpH | HttpHT | HttpHTT | HttpHTTP
    | FirstMajorDigit | MajorDigit | FirstMinorDigit | MinorDigit
    | SpacesAfterDigit | AlmostDone

  /** The fields of http_request that the parser writes. */
  datatype Line = Line(
    state: State,
    verb: nat,
    requestStart: int, requestEnd: int, methodEnd: int,
    schemaStart: int, schemaEnd: int,
    hostStart: int, hostEnd: int, portEnd: int,
    uriStart: int, uriEnd: int, uriExt: int, argsStart: int,
    protocol: int,
    major: nat, minor: nat, version: nat,
    complexUri: bool, quotedUri: bool, plusInUri: bool, spaceInUri: bool)

  /** A request as os_calloc leaves it. */
  const ZERO: Line := Line(Start, 0, NULL, NULL, NULL, NULL, NULL, NULL, NULL, NULL,
                           NULL, NULL, NULL, NULL, NULL, 0, 0, 0, false, false, false, false)

  /** What one byte does: go on with the next byte, take the same byte again, end the line, or fail. */
  datatype Verdict =
    | Advance(line: Line)
    | Redo(line: Line)
    | Finish(line: Line)
    | Reject(code: int, line: Line)

  predicate IsLetter(ch: Byte) {
    'A' <= ch <= 'Z' || 'a' <= ch <= 'z'
  }

  predicate IsDigit(ch: Byte) {
    '0' <= ch <= '9'
  }

  predicate IsMethodByte(ch: Byte) {
    'A' <= ch <= 'Z' || ch == '_'
  }

  /** The bytes whose bit is set in the table `usual`. */
  predicate Usual(ch: Byte) {
    !(ch == NUL || ch == LF || ch == CR || ch == ' ' || ch == '#' || ch == '%' || ch == '+'
      || ch == '.' || ch == '/' || ch == '?')
  }

  /** The bytes allowed between the brackets of an IP literal. */
  predicate IsLiteralByte(ch: Byte) {
    IsDigit(ch) || IsLetter(ch) || ch in ":-._~!$&'()*+,;="
  }

  predicate IsHostByte(ch: Byte) {
    IsLetter(ch) || IsDigit(ch) || ch == '.' || ch == '-'
  }

  /** The bytes between two positions; every run from a fresh request keeps the positions in order. */
  function Slice(text: Text, from: int, to: int): Text {
    if 0 <= from <= to <= |text| then text[from..to] else []
  }

  /** The method's code; an unknown name keeps the code the request had. */
  function MethodCode(m: Text, verb: nat): nat {
    match |m|
    case 3 =>
      if m[0] == 'G' && m[1] == 'E' && m[2] == 'T' then HTTP_GET
      else if m[0] == 'P' && m[1] == 'U' && m[2] == 'T' then HTTP_PUT
      else verb
    case 4 =>
      if m[1] == 'O' then
        if m[0] == 'P' && m[2] == 'S' && m[3] == 'T' then HTTP_POST
        else if m[0] == 'C' && m[2] == 'P' && m[3] == 'Y' then HTTP_COPY
        else if m[0] == 'M' && m[2] == 'V' && m[3] == 'E' then HTTP_MOVE
        else if m[0] == 'L' && m[2] == 'C' && m[3] == 'K' then HTTP_LOCK
        else verb
      else if m[0] == 'H' && m[1] == 'E' && m[2] == 'A' && m[3] == 'D' then HTTP_HEAD
      else verb
    case 5 => if m == "MKCOL" then HTTP_MKCOL else if m == "PATCH" then HTTP_PATCH else if m == "TRACE" then HTTP_TRACE else verb
    case 6 => if m == "DELETE" then HTTP_DELETE else if m == "UNLOCK" then HTTP_UNLOCK else verb
    case 7 => if m == "OPTIONS" then HTTP_OPTIONS else verb
    case 8 => if m == "PROPFIND" then HTTP_PROPFIND else verb
    case 9 => if m == "PROPPATCH" then HTTP_PROPPATCH else verb
    case _ => verb
  }

  // ---------- one byte in each state ----------

  function OnStart(r: Line, p: nat, ch: Byte): Verdict {
    var r := r.(requestStart := p);
    if ch == CR || ch == LF then Advance(r)
    else if !IsMethodByte(ch) then Reject(INVALID_METHOD, r)
    else Advance(r.(state := Method))
  }

  function OnMethod(text: Text, r: Line, p: nat, ch: Byte): Verdict
  {
    if ch == ' ' then
      Advance(r.(methodEnd := p - 1, verb := MethodCode(Slice(text, r.requestStart, p), r.verb), state := SpacesBeforeUri))
    else if !IsMethodByte(ch) then Reject(INVALID_METHOD, r)
    else Advance(r)
  }

  function OnSpacesBeforeUri(r: Line, p: nat, ch: Byte): Verdict {
    if ch == '/' then Advance(r.(uriStart := p, state := AfterSlashInUri))
    else if IsLetter(ch) then Advance(r.(schemaStart := p, state := Schema))
    else if ch == ' ' then Advance(r)
    else Reject(INVALID_REQUEST, r)
  }

  function OnSchema(r: Line, p: nat, ch: Byte): Verdict {
    if IsLetter(ch) then Advance(r)
    else if ch == ':' then Advance(r.(schemaEnd := p, state := SchemaSlash))
    else Reject(INVALID_REQUEST, r)
  }

  /** A state that accepts one byte only. */
  function Expect(r: Line, ch: Byte, wanted: Byte, next: State): Verdict {
    if ch == wanted then Advance(r.(state := next)) else Reject(INVALID_REQUEST, r)
  }

  function OnHostStart(r: Line, p: nat, ch: Byte): Verdict {
    var r := r.(hostStart := p);
    if ch == '[' then Advance(r.(state := HostIpLiteral))
    else OnHost(r.(state := Host), p, ch)
  }

  function OnHost(r: Line, p: nat, ch: Byte): Verdict {
    if IsHostByte(ch) then Advance(r) else OnHostEnd(r, p, ch)
  }

  function OnHostEnd(r: Line, p: nat, ch: Byte): Verdict {
    var r := r.(hostEnd := p);
    if ch == ':' then Advance(r.(state := Port))
    else if ch == '/' then Advance(r.(uriStart := p, state := AfterSlashInUri))
    else if ch == ' ' then Advance(RootUri(r))
    else Reject(INVALID_REQUEST, r)
  }

  /** The URI of an absolute form without a path: the first slash after the schema. */
  function RootUri(r: Line): Line {
    r.(uriStart := r.schemaEnd + 1, uriEnd := r.schemaEnd + 2, state := HostHttp09)
  }

  function OnHostIpLiteral(r: Line, ch: Byte): Verdict {
    if IsLiteralByte(ch) then Advance(r)
    else if ch == ']' then Advance(r.(state := HostEnd))
    else Reject(INVALID_REQUEST, r)
  }

  function OnPort(r: Line, p: nat, ch: Byte): Verdict {
    if IsDigit(ch) then Advance(r)
    else if ch == '/' then Advance(r.(portEnd := p, uriStart := p, state := AfterSlashInUri))
    else if ch == ' ' then Advance(RootUri(r.(portEnd := p)))
    else Reject(INVALID_REQUEST, r)
  }

  /** The spaces after a complete URI: the end of an HTTP/0.9 line or the protocol. */
  function OnAfterUri(r: Line, p: nat, ch: Byte): Verdict {
    if ch == ' ' then Advance(r)
    else if ch == CR then Advance(r.(minor := 9, state := AlmostDone))
    else if ch == LF then Finish(r.(minor := 9))
    else if ch == 'H' then Advance(r.(protocol := p, state := HttpH))
    else Reject(INVALID_REQUEST, r)
  }

  /** The end of the URI, common to the three states inside it. */
  function EndUri(r: Line, p: nat, ch: Byte, after: State): Verdict {
    var r := r.(uriEnd := p);
    if ch == ' ' then Advance(r.(state := after))
    else if ch == CR then Advance(r.(minor := 9, state := AlmostDone))
    else Finish(r.(minor := 9))
  }

  predicate EndsUri(ch: Byte) {
    ch == ' ' || ch == CR || ch == LF
  }

  function OnAfterSlashInUri(r: Line, p: nat, ch: Byte): Verdict {
    if Usual(ch) then Advance(r.(state := CheckUri))
    else if EndsUri(ch) then EndUri(r, p, ch, CheckUriHttp09)
    else if ch == '.' || ch == '/' || ch == '#' then Advance(r.(complexUri := true, state := Uri))
    else if ch == '%' then Advance(r.(quotedUri := true, state := Uri))
    else if ch == '?' then Advance(r.(argsStart := p + 1, state := Uri))
    else if ch == '+' then Advance(r.(plusInUri := true))
    else if ch == NUL then Reject(INVALID_REQUEST, r)
    else Advance(r.(state := CheckUri))
  }

  function OnCheckUri(r: Line, p: nat, ch: Byte): Verdict {
    if Usual(ch) then Advance(r)
    else if ch == '/' then Advance(r.(uriExt := NULL, state := AfterSlashInUri))
    else if ch == '.' then Advance(r.(uriExt := p + 1))
    else if EndsUri(ch) then EndUri(r, p, ch, CheckUriHttp09)
    else if ch == '%' then Advance(r.(quotedUri := true, state := Uri))
    else if ch == '?' then Advance(r.(argsStart := p + 1, state := Uri))
    else if ch == '#' then Advance(r.(complexUri := true, state := Uri))
    else if ch == '+' then Advance(r.(plusInUri := true))
    else if ch == NUL then Reject(INVALID_REQUEST, r)
    else Advance(r)
  }

  /** The spaces after a URI that may itself hold spaces: any other byte goes back into the URI. */
  function OnSpacesAfterUri(r: Line, p: nat, ch: Byte, back: State): Verdict {
    if ch == ' ' || ch == CR || ch == LF || ch == 'H' then OnAfterUri(r, p, ch)
    else Redo(r.(spaceInUri := true, state := back))
  }

  function OnUri(r: Line, p: nat, ch: Byte): Verdict {
    if Usual(ch) then Advance(r)
    else if EndsUri(ch) then EndUri(r, p, ch, Http09)
    else if ch == '#' then Advance(r.(complexUri := true))
    else if ch == NUL then Reject(INVALID_REQUEST, r)
    else Advance(r)
  }

  function DigitValue(ch: Byte): nat
    requires IsDigit(ch)
  {
    ch as int - '0' as int
  }

  /** The version fields are 16 bits wide. */
  function AppendDigit(n: nat, ch: Byte): nat
    requires IsDigit(ch)
  {
    (n * 10 + DigitValue(ch)) % 0x1_0000
  }

  function OnFirstMajorDigit(r: Line, ch: Byte): Verdict {
    if !('1' <= ch <= '9') then Reject(INVALID_REQUEST, r)
    else Advance(r.(major := DigitValue(ch), state := MajorDigit))
  }

  function OnMajorDigit(r: Line, ch: Byte): Verdict {
    if ch == '.' then Advance(r.(state := FirstMinorDigit))
    else if !IsDigit(ch) then Reject(INVALID_REQUEST, r)
    else Advance(r.(major := AppendDigit(r.major, ch)))
  }

  function OnFirstMinorDigit(r: Line, ch: Byte): Verdict {
    if !IsDigit(ch) then Reject(INVALID_REQUEST, r)
    else Advance(r.(minor := DigitValue(ch), state := MinorDigit))
  }

  function OnMinorDigit(r: Line, ch: Byte): Verdict {
    if ch == CR then Advance(r.(state := AlmostDone))
    else if ch == LF then Finish(r)
    else if ch == ' ' then Advance(r.(state := SpacesAfterDigit))
    else if !IsDigit(ch) then Reject(INVALID_REQUEST, r)
    else Advance(r.(minor := AppendDigit(r.minor, ch)))
  }

  function OnSpacesAfterDigit(r: Line, ch: Byte): Verdict {
    if ch == ' ' then Advance(r)
    else if ch == CR then Advance(r.(state := AlmostDone))
    else if ch == LF then Finish(r)
    else Reject(INVALID_REQUEST, r)
  }

  function OnAlmostDone(r: Line, p: nat, ch: Byte): Verdict {
    var r := r.(requestEnd := p - 1);
    if ch == LF then Finish(r) else Reject(INVALID_REQUEST, r)
  }

  function Dispatch(text: Text, p: nat, r: Line): (v: Verdict)
    requires p < |text|
  {
    var ch := text[p];
    match r.state
    case Start => OnStart(r, p, ch)
    case Method => OnMethod(text, r, p, ch)
    case SpacesBeforeUri => OnSpacesBeforeUri(r, p, ch)
    case Schema => OnSchema(r, p, ch)
    case SchemaSlash => Expect(r, ch, '/', SchemaSlashSlash)
    case SchemaSlashSlash => Expect(r, ch, '/', HostStart)
    case HostStart => OnHostStart(r, p, ch)
    case Host => OnHost(r, p, ch)
    case HostEnd => OnHostEnd(r, p, ch)
    case HostIpLiteral => OnHostIpLiteral(r, ch)
    case Port => OnPort(r, p, ch)
    case HostHttp09 => OnAfterUri(r, p, ch)
    case AfterSlashInUri => OnAfterSlashInUri(r, p, ch)
    case CheckUri => OnCheckUri(r, p, ch)
    case CheckUriHttp09 => OnSpacesAfterUri(r, p, ch, CheckUri)
    case Uri => OnUri(r, p, ch)
    case Http09 => OnSpacesAfterUri(r, p, ch, Uri)
    case HttpH => Expect(r, ch, 'T', HttpHT)
    case HttpHT => Expect(r, ch, 'T', HttpHTT)
    case HttpHTT => Expect(r, ch, 'P', HttpHTTP)
    case HttpHTTP => Expect(r, ch, '/', FirstMajorDigit)
    case FirstMajorDigit => OnFirstMajorDigit(r, ch)
    case MajorDigit => OnMajorDigit(r, ch)
    case FirstMinorDigit => OnFirstMinorDigit(r, ch)
    case MinorDigit => OnMinorDigit(r, ch)
    case SpacesAfterDigit => OnSpacesAfterDigit(r, ch)
    case AlmostDone => OnAlmostDone(r, p, ch)
  }

  /** The two states after which a byte may be taken again. */
  predicate MayRedo(s: State) {
    s.CheckUriHttp09? || s.Http09?
  }

  /** The byte taken again: the measure is the bytes left, then whether the state is one that may do so. */
  lemma DispatchRedo(text: Text, p: nat, r: Line)
    requires p < |text|
    ensures var v := Dispatch(text, p, r);
            v.Redo? ==> MayRedo(r.state) && v.line.state == if r.state.Http09? then Uri else CheckUri
  {
    hide MethodCode, Usual, IsLetter, IsDigit, IsLiteralByte, IsHostByte, IsMethodByte, EndsUri;
    match r.state
    case Start =>
    case Method =>
    case SpacesBeforeUri =>
    case Schema =>
    case HostStart =>
    case Host =>
    case HostEnd =>
    case HostIpLiteral =>
    case Port =>
    case HostHttp09 =>
    case AfterSlashInUri =>
    case CheckUri =>
    case CheckUriHttp09 =>
    case Uri =>
    case Http09 =>
    case _ =>
  }

  lemma FinishAtLineFeed(text: Text, p: nat, r: Line)
    requires p < |text| && Dispatch(text, p, r).Finish?
    ensures text[p] == LF
  {
    hide MethodCode, Usual, IsLetter, IsDigit, IsLiteralByte, IsHostByte, IsMethodByte;
    match r.state
    case Start =>
    case Method =>
    case SpacesBeforeUri =>
    case Schema =>
    case HostStart =>
    case Host =>
    case HostEnd =>
    case HostIpLiteral =>
    case Port =>
    case HostHttp09 =>
    case AfterSlashInUri =>
    case CheckUri =>
    case CheckUriHttp09 =>
    case Uri =>
    case Http09 =>
    case _ =>
  }

  // ---------- the loop ----------

  datatype Result =
    | Incomplete(line: Line)
    | Complete(code: int, line: Line, pos: nat)
    | Rejected(code: int, line: Line)

  /** What follows the label `done`, with the line feed at p. */
  function Conclude(r: Line, p: nat): (result: Result)
    ensures result.Complete? && result.pos == p + 1
  {
    var version := r.major * 1000 + r.minor;
    var r := r.(requestEnd := if r.requestEnd == NULL then p else r.requestEnd, version := version, state := Start);
    Complete(if version == 9 && r.verb != HTTP_GET then INVALID_09_METHOD else OS_OK, r, p + 1)
  }

  function Run(text: Text, p: nat, r: Line): Result
    requires p <= |text|
    decreases |text| - p, if MayRedo(r.state) then 1 else 0
  {
    if p == |text| then Incomplete(r)
    else
      DispatchRedo(text, p, r);
      match Dispatch(text, p, r)
      case Advance(line) => Run(text, p + 1, line)
      case Redo(line) => Run(text, p, line)
      case Finish(line) => Conclude(line, p)
      case Reject(code, line) => Rejected(code, line)
  }

  /** One turn of the loop. */
  lemma RunStep(text: Text, p: nat, r: Line)
    requires p < |text|
    ensures Run(text, p, r) == match Dispatch(text, p, r)
                               case Advance(line) => Run(text, p + 1, line)
                               case Redo(line) => Run(text, p, line)
                               case Finish(line) => Conclude(line, p)
                               case Reject(code, line) => Rejected(code, line)
  {
  }

  lemma RunEnd(text: Text, r: Line)
    ensures Run(text, |text|, r) == Incomplete(r)
  {
  }

  lemma DispatchCode(text: Text, p: nat, r: Line)
    requires p < |text|
    ensures var v := Dispatch(text, p, r);
            v.Reject? ==> v.code == if r.state == Start || r.state == Method then INVALID_METHOD else INVALID_REQUEST
  {
    hide MethodCode, Usual, IsLetter, IsDigit, IsLiteralByte, IsHostByte, IsMethodByte, EndsUri;
    match r.state
    case Start =>
    case Method =>
    case SpacesBeforeUri =>
    case Schema =>
    case HostStart =>
    case Host =>
    case HostEnd =>
    case HostIpLiteral =>
    case Port =>
    case HostHttp09 =>
    case AfterSlashInUri =>
    case CheckUri =>
    case CheckUriHttp09 =>
    case Uri =>
    case Http09 =>
    case _ =>
  }

  /** The return code tells the three results apart. */
  lemma {:induction false} ResultCodes(text: Text, p: nat, r: Line)
    requires p <= |text|
    ensures match Run(text, p, r)
            case Incomplete(_) => true
            case Complete(code, _, _) => code == OS_OK || code == INVALID_09_METHOD
            case Rejected(code, _) => code == INVALID_METHOD || code == INVALID_REQUEST
    decreases |text| - p, if MayRedo(r.state) then 1 else 0
  {
    hide Dispatch;
    if p < |text| {
      DispatchCode(text, p, r);
      DispatchRedo(text, p, r);
      match Dispatch(text, p, r)
      case Advance(line) => ResultCodes(text, p + 1, line);
      case Redo(line) => ResultCodes(text, p, line);
      case Finish(_) =>
      case Reject(_, _) =>
    }
  }

  // ---------- the parser in place ----------

  /** The connection's receive buffer: bytes [pos, last) are unread. */
  class Buffer {
    const bytes: array<Byte>
    var pos: nat
    var last: nat

    ghost predicate Valid()
      reads this
    {
      pos <= last <= bytes.Length
    }

    ghost function Received(): Text
      requires Valid()
      reads this, bytes
    {
      bytes[..last]
    }

    constructor (capacity: nat)
      ensures Valid() && fresh(bytes) && bytes.Length == capacity && pos == 0 && last == 0
    {
      bytes := new Byte[capacity](_ => NUL);
      pos, last := 0, 0;
    }

    /** recv into the free end of the buffer: as much of the data as fits. */
    method Receive(data: Text) returns (n: nat)
      requires Valid()
      modifies this`last, bytes
      ensures Valid() && n == if |data| <= bytes.Length - old(last) then |data| else bytes.Length - old(last)
      ensures Received() == old(Received()) + data[..n]
    {
      n := if |data| <= bytes.Length - last then |data| else bytes.Length - last;
      forall i | 0 <= i < n {
        bytes[last + i] := data[i];
      }
      last := last + n;
    }
  }

  class HttpRequest {
    var line: Line

    constructor ()
      ensures line == ZERO
    {
      line := ZERO;
    }

    /** http_parse_request_line. On an error the position and the saved state stay as they were. */
    method Parse(b: Buffer) returns (rc: int)
      requires b.Valid()
      modifies this, b`pos
      ensures b.Valid()
      ensures match Run(b.Received(), old(b.pos), old(line))
              case Incomplete(l) => rc == OS_AGAIN && line == l && b.pos == b.last
              case Complete(code, l, pos) => rc == code && line == l && b.pos == pos
              case Rejected(code, l) => rc == code && line == l.(state := old(line.state)) && b.pos == old(b.pos)
    {
      hide Dispatch, Run, Conclude;
      var text := b.bytes[..b.last];
      var saved := line.state;
      var p := b.pos;
      while p < |text|
        invariant b.pos == old(b.pos) <= p <= |text|
        invariant Run(text, p, line) == Run(text, old(b.pos), old(line))
        decreases |text| - p, if MayRedo(line.state) then 1 else 0
      {
        DispatchRedo(text, p, line);
        RunStep(text, p, line);
        match Dispatch(text, p, line)
        case Advance(l) =>
          line := l;
          p := p + 1;
        case Redo(l) =>
          line := l;
        case Finish(l) =>
          var done := Conclude(l, p);
          line := done.line;
          b.pos := done.pos;
          return done.code;
        case Reject(code, l) =>
          line := l.(state := saved);
          return code;
      }
      RunEnd(text, line);
      b.pos := p;
      rc := OS_AGAIN;
    }
  }

  // ---------- the text may come in any pieces ----------

  lemma DispatchPrefix(text: Text, more: Text, p: nat, r: Line)
    requires p < |text|
    ensures Dispatch(text + more, p, r) == Dispatch(text, p, r)
  {
    assert (text + more)[p] == text[p];
    assert Slice(text + more, r.requestStart, p) == Slice(text, r.requestStart, p);
  }

  /** Running over a longer text: stop where the shorter one stopped, or go on from its end. */
  lemma {:induction false} RunPrefix(text: Text, more: Text, p: nat, r: Line)
    requires p <= |text|
    ensures match Run(text, p, r)
            case Incomplete(r') => Run(text + more, p, r) == Run(text + more, |text|, r')
            case result => Run(text + more, p, r) == result
    decreases |text| - p, if MayRedo(r.state) then 1 else 0
  {
    if p < |text| {
      DispatchPrefix(text, more, p, r);
      DispatchRedo(text, p, r);
      RunStep(text, p, r);
      RunStep(text + more, p, r);
      hide Dispatch, Run;
      match Dispatch(text, p, r)
      case Advance(line) => RunPrefix(text, more, p + 1, line);
      case Redo(line) => RunPrefix(text, more, p, line);
      case Finish(_) =>
      case Reject(_, _) =>
    }
  }

  function Concat(chunks: seq<Text>): Text {
    if chunks == [] then [] else chunks[0] + Concat(chunks[1..])
  }

  /** Parsing as the chunks arrive: after OS_AGAIN the parser goes on where it stopped. */
  function Feed(text: Text, r: Line, chunks: seq<Text>): Result
    decreases |chunks|
  {
    if chunks == [] then Incomplete(r)
    else
      var longer := text + chunks[0];
      match Run(longer, |text|, r)
      case Incomplete(r') => Feed(longer, r', chunks[1..])
      case result => result
  }

  /** Chunk independence: what is parsed depends on the bytes alone, not on how they were split. */
  lemma {:induction false} FeedIsRun(text: Text, r: Line, chunks: seq<Text>)
    ensures Feed(text, r, chunks) == Run(text + Concat(chunks), |text|, r)
    decreases |chunks|
  {
    if chunks == [] {
      assert text + Concat(chunks) == text;
    } else {
      var longer, rest := text + chunks[0], Concat(chunks[1..]);
      assert text + Concat(chunks) == longer + rest;
      RunPrefix(longer, rest, |text|, r);
      match Run(longer, |text|, r)
      case Incomplete(r') => FeedIsRun(longer, r', chunks[1..]);
      case _ =>
    }
  }

  lemma ChunksDoNotMatter(chunks: seq<Text>, others: seq<Text>)
    requires Concat(chunks) == Concat(others)
    ensures Feed([], ZERO, chunks) == Feed([], ZERO, others) == Run(Concat(chunks), 0, ZERO)
  {
    FeedIsRun([], ZERO, chunks);
    FeedIsRun([], ZERO, others);
    assert [] + Concat(chunks) == Concat(chunks);
  }

  /** A line ends with a line feed inside the text. */
  lemma {:induction false} CompleteAtLineFeed(text: Text, p: nat, r: Line)
    requires p <= |text| && Run(text, p, r).Complete?
    ensures p < Run(text, p, r).pos <= |text| && text[Run(text, p, r).pos - 1] == LF
    decreases |text| - p, if MayRedo(r.state) then 1 else 0
  {
    hide Dispatch;
    DispatchRedo(text, p, r);
    match Dispatch(text, p, r)
    case Advance(line) => CompleteAtLineFeed(text, p + 1, line);
    case Redo(line) => CompleteAtLineFeed(text, p, line);
    case Finish(_) => FinishAtLineFeed(text, p, r);
    case Reject(_, _) =>
  }

  /** Bytes after the line feed never matter, and no shorter text is a complete line. */
  lemma OnlyTheLineMatters(text: Text, q: nat)
    requires Run(text, 0, ZERO).Complete? && q <= |text|
    ensures Run(text, 0, ZERO).pos <= |text|
    ensures Run(text[..q], 0, ZERO) == Run(text, 0, ZERO) <==> q >= Run(text, 0, ZERO).pos
    ensures q < Run(text, 0, ZERO).pos ==> Run(text[..q], 0, ZERO).Incomplete?
  {
    CompleteAtLineFeed(text, 0, ZERO);
    assert text == text[..q] + text[q..];
    RunPrefix(text[..q], text[q..], 0, ZERO);
    match Run(text[..q], 0, ZERO)
    case Incomplete(r') => CompleteAtLineFeed(text, q, r');
    case Complete(_, _, _) => CompleteAtLineFeed(text[..q], 0, ZERO);
    case Rejected(_, _) =>
  }
}
