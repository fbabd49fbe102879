/**
 The form of every request line that the parser completes, and what each field says of it.

 `RequestLanguage` adds the other direction: which texts are completed.
 The predicates take positions, so that a field that no state touches needs no argument.
 */
module RequestGrammar {
  import opened Common
  import opened RequestLine
  import RequestSlices
  import RoundTrip

  // ---------- stretches of the text ----------

  ghost predicate Spaces(text: Text, from: int, end: int) {
    0 <= from <= end <= |text| && forall j | from <= j < end :: text[j] == ' '
  }

  ghost predicate Letters(text: Text, from: int, end: int) {
    0 <= from <= end <= |text| && forall j | from <= j < end :: IsLetter(text[j])
  }

  ghost predicate Digits(text: Text, from: int, end: int) {
    0 <= from <= end <= |text| && forall j | from <= j < end :: IsDigit(text[j])
  }

  /** Empty lines before the request. */
  ghost predicate LineEnds(text: Text, end: int) {
    0 <= end <= |text| && forall j | 0 <= j < end :: text[j] == CR || text[j] == LF
  }

  lemma DigitsAsSlice(text: Text, from: int, end: int)
    requires Digits(text, from, end)
    ensures forall c | c in text[from..end] :: IsDigit(c)
  {
  }

  // ---------- the parts of a line ----------

  /** The method: a token after empty lines, ended by a space, with the code of its name. */
  ghost predicate Named(text: Text, start: int, methodEnd: int, verb: nat) {
    && 0 <= start <= methodEnd && methodEnd + 1 < |text|
    && LineEnds(text, start) && RequestSlices.Token(text, start, methodEnd + 1) && text[methodEnd + 1] == ' '
    && verb == MethodCode(text[start..methodEnd + 1], 0)
  }

  /** The schema after the method's spaces, and its colon. */
  ghost predicate Schemed(text: Text, methodEnd: int, schemaStart: int, schemaEnd: int) {
    && 0 <= methodEnd && methodEnd + 1 < schemaStart < schemaEnd < |text|
    && Spaces(text, methodEnd + 1, schemaStart) && Letters(text, schemaStart, schemaEnd) && text[schemaEnd] == ':'
  }

  ghost predicate Hosted(text: Text, methodEnd: int, schemaStart: int, schemaEnd: int, hostStart: int) {
    && Schemed(text, methodEnd, schemaStart, schemaEnd)
    && hostStart == schemaEnd + 3 <= |text| && text[schemaEnd + 1] == '/' && text[schemaEnd + 2] == '/'
  }

  /** schema "://" host [ ":" digits ], followed by at least one byte. */
  ghost predicate Absolute(text: Text, methodEnd: int, schemaStart: int, schemaEnd: int, hostStart: int, hostEnd: int, portEnd: int) {
    && Hosted(text, methodEnd, schemaStart, schemaEnd, hostStart)
    && hostStart <= hostEnd < |text| && RequestSlices.HostName(text, hostStart, hostEnd)
    && if text[hostEnd] == ':' then hostEnd < portEnd < |text| && Digits(text, hostEnd + 1, portEnd) else portEnd == NULL
  }

  function AuthorityEnd(hostEnd: int, portEnd: int): int {
    if portEnd == NULL then hostEnd else portEnd
  }

  /** The URI begins with its own slash: after the method's spaces, or after the authority. */
  ghost predicate Direct(text: Text, methodEnd: int, schemaStart: int, schemaEnd: int, hostStart: int, hostEnd: int, portEnd: int, uriStart: int) {
    && uriStart < |text|
    && if schemaStart == NULL then
         && schemaEnd == hostStart == hostEnd == portEnd == NULL
         && 0 <= methodEnd && methodEnd + 1 < uriStart && Spaces(text, methodEnd + 1, uriStart) && text[uriStart] == '/'
       else
         && Absolute(text, methodEnd, schemaStart, schemaEnd, hostStart, hostEnd, portEnd)
         && uriStart == AuthorityEnd(hostEnd, portEnd) && text[uriStart] == '/'
  }

  /** An authority without a path: the URI is the first slash after the schema. */
  ghost predicate Root(text: Text, methodEnd: int, schemaStart: int, schemaEnd: int, hostStart: int, hostEnd: int, portEnd: int, uriStart: int, uriEnd: int) {
    && schemaStart != NULL && Absolute(text, methodEnd, schemaStart, schemaEnd, hostStart, hostEnd, portEnd)
    && text[AuthorityEnd(hostEnd, portEnd)] == ' ' && uriStart == schemaEnd + 1 && uriEnd == schemaEnd + 2
  }

  ghost predicate IsDirect(text: Text, r: Line) {
    Direct(text, r.methodEnd, r.schemaStart, r.schemaEnd, r.hostStart, r.hostEnd, r.portEnd, r.uriStart)
  }

  ghost predicate IsRoot(text: Text, r: Line) {
    Root(text, r.methodEnd, r.schemaStart, r.schemaEnd, r.hostStart, r.hostEnd, r.portEnd, r.uriStart, r.uriEnd)
  }

  /** A complete target, and where the target ends in the text. */
  ghost predicate Targeted(text: Text, r: Line, gap: int) {
    || (IsDirect(text, r) && r.uriStart < r.uriEnd == gap)
    || (IsRoot(text, r) && gap == AuthorityEnd(r.hostEnd, r.portEnd))
  }

  const NAME: Text := "HTTP/"

  /** The first bytes of the protocol's name. */
  ghost predicate NameSoFar(text: Text, protocol: int, p: int) {
    0 <= protocol <= p <= |text| && p - protocol <= 5 && text[protocol..p] == NAME[..p - protocol]
  }

  /** A non-empty number, kept modulo 2^16. */
  ghost predicate Number(text: Text, from: int, end: int, n: nat) {
    Digits(text, from, end) && from < end && (DigitsAsSlice(text, from, end); n == RoundTrip.Value(text[from..end]) % 0x1_0000)
  }

  /** "HTTP/" major, from a position to the byte before `end`. */
  ghost predicate Major(text: Text, protocol: int, end: int, major: nat) {
    && 0 <= protocol && protocol + 5 <= end <= |text| && NameSoFar(text, protocol, protocol + 5)
    && Number(text, protocol + 5, end, major) && text[protocol + 5] != '0'
  }

  /** "HTTP/" major "." minor, up to `end`. */
  ghost predicate Version(text: Text, protocol: int, end: int, major: nat, minor: nat) {
    exists dot | protocol < dot < end && dot < |text| :: Major(text, protocol, dot, major) && text[dot] == '.' && Number(text, dot + 1, end, minor)
  }

  /** Nothing after the target, or spaces, the version and spaces again. */
  ghost predicate Versioned(text: Text, gap: int, end: int, r: Line) {
    if r.protocol == NULL then Spaces(text, gap, end) && r.major == 0 && r.minor == 9
    else
      && gap < r.protocol && Spaces(text, gap, r.protocol)
      && exists e | r.protocol < e <= end :: Version(text, r.protocol, e, r.major, r.minor) && Spaces(text, e, end)
  }

  // ---------- the invariant ----------

  ghost predicate Unversioned(r: Line) {
    r.protocol == NULL && r.major == 0 && r.minor == 0
  }

  ghost predicate Begun(text: Text, r: Line) {
    Named(text, r.requestStart, r.methodEnd, r.verb) && r.requestEnd == NULL
  }

  ghost predicate NoHost(r: Line) {
    r.hostStart == NULL && r.hostEnd == NULL && r.portEnd == NULL
  }

  ghost predicate InSchema(text: Text, p: int, r: Line, slashes: nat) {
    && Begun(text, r) && Unversioned(r) && NoHost(r) && Schemed(text, r.methodEnd, r.schemaStart, r.schemaEnd)
    && p == r.schemaEnd + 1 + slashes <= |text|
    && (slashes >= 1 ==> text[r.schemaEnd + 1] == '/') && (slashes >= 2 ==> text[r.schemaEnd + 2] == '/')
  }

  ghost predicate InHost(text: Text, p: int, r: Line) {
    && Begun(text, r) && Unversioned(r) && Hosted(text, r.methodEnd, r.schemaStart, r.schemaEnd, r.hostStart)
    && r.hostStart < p <= |text| && r.portEnd == NULL
  }

  ghost predicate InUri(text: Text, p: int, r: Line) {
    Begun(text, r) && Unversioned(r) && IsDirect(text, r) && r.uriStart < p
  }

  /** The target is complete, and so far only spaces follow it. */
  ghost predicate AfterTarget(text: Text, p: int, r: Line) {
    Begun(text, r) && Unversioned(r) && exists gap | gap < p :: Targeted(text, r, gap) && Spaces(text, gap, p)
  }

  /** The protocol's name is being read. */
  ghost predicate InName(text: Text, p: int, r: Line, length: nat) {
    && Begun(text, r) && r.major == 0 && r.minor == 0 && 0 <= r.protocol && p == r.protocol + length && NameSoFar(text, r.protocol, p)
    && Introduced(text, r)
  }

  /** Only spaces lie between the target and the protocol. */
  ghost predicate Introduced(text: Text, r: Line) {
    exists gap | gap < r.protocol :: Targeted(text, r, gap) && Spaces(text, gap, r.protocol)
  }

  ghost predicate InMajor(text: Text, p: int, r: Line) {
    Begun(text, r) && Introduced(text, r) && 0 <= r.protocol && Major(text, r.protocol, p, r.major) && r.minor == 0
  }

  ghost predicate AfterDot(text: Text, p: int, r: Line) {
    && Begun(text, r) && Introduced(text, r) && 0 <= r.protocol < p - 1 && p <= |text|
    && Major(text, r.protocol, p - 1, r.major) && text[p - 1] == '.' && r.minor == 0
  }

  ghost predicate InMinor(text: Text, p: int, r: Line) {
    Begun(text, r) && Introduced(text, r) && 0 <= r.protocol && Version(text, r.protocol, p, r.major, r.minor)
  }

  /** Everything is there up to `end`. */
  ghost predicate Whole(text: Text, end: int, r: Line) {
    Begun(text, r) && exists gap | gap <= end :: Targeted(text, r, gap) && Versioned(text, gap, end, r)
  }

  ghost predicate Shape(text: Text, p: int, r: Line)
    requires 0 <= p <= |text|
  {
    match r.state
    case Start => r == ZERO.(requestStart := r.requestStart) && LineEnds(text, p)
    case Method =>
      && r == ZERO.(state := Method, requestStart := r.requestStart)
      && 0 <= r.requestStart < p && LineEnds(text, r.requestStart) && RequestSlices.Token(text, r.requestStart, p)
    case SpacesBeforeUri =>
      && Begun(text, r) && Unversioned(r) && NoHost(r) && r.schemaStart == NULL && r.schemaEnd == NULL
      && r.methodEnd + 1 < p && Spaces(text, r.methodEnd + 1, p)
    case Schema =>
      && Begun(text, r) && Unversioned(r) && NoHost(r) && r.schemaEnd == NULL
      && r.methodEnd + 1 < r.schemaStart < p && Spaces(text, r.methodEnd + 1, r.schemaStart) && Letters(text, r.schemaStart, p)
    case SchemaSlash => InSchema(text, p, r, 0)
    case SchemaSlashSlash => InSchema(text, p, r, 1)
    case HostStart => InSchema(text, p, r, 2)
    case Host => InHost(text, p, r) && forall j | r.hostStart <= j < p :: IsHostByte(text[j])
    case HostIpLiteral => InHost(text, p, r) && text[r.hostStart] == '[' && forall j | r.hostStart < j < p :: IsLiteralByte(text[j])
    case HostEnd => InHost(text, p, r) && RequestSlices.Literal(text, r.hostStart, p)
    case Port =>
      && InHost(text, p, r) && r.hostStart <= r.hostEnd < p && RequestSlices.HostName(text, r.hostStart, r.hostEnd)
      && text[r.hostEnd] == ':' && Digits(text, r.hostEnd + 1, p)
    case AfterSlashInUri => InUri(text, p, r)
    case CheckUri => InUri(text, p, r)
    case Uri => InUri(text, p, r)
    case HostHttp09 => AfterTarget(text, p, r)
    case CheckUriHttp09 => AfterTarget(text, p, r) && IsDirect(text, r)
    case Http09 => AfterTarget(text, p, r) && IsDirect(text, r)
    case HttpH => InName(text, p, r, 1)
    case HttpHT => InName(text, p, r, 2)
    case HttpHTT => InName(text, p, r, 3)
    case HttpHTTP => InName(text, p, r, 4)
    case FirstMajorDigit => InName(text, p, r, 5)
    case MajorDigit => InMajor(text, p, r)
    case FirstMinorDigit => AfterDot(text, p, r)
    case MinorDigit => InMinor(text, p, r)
    case SpacesAfterDigit => Whole(text, p, r) && r.protocol != NULL
    case AlmostDone => 0 < p && text[p - 1] == CR && Whole(text, p - 1, r)
  }

  /** The line ends with the line feed at p. */
  ghost predicate ShapeAtEnd(text: Text, p: int, r: Line)
    requires 0 <= p < |text|
  {
    var end := if r.requestEnd == NULL then p else r.requestEnd;
    && Whole(text, end, r.(requestEnd := NULL))
    && (r.requestEnd == NULL || (r.requestEnd == p - 1 && text[p - 1] == CR))
  }

  ghost predicate VerdictShape(text: Text, p: int, v: Verdict)
    requires 0 <= p < |text|
  {
    match v
    case Advance(r) => Shape(text, p + 1, r)
    case Redo(r) => Shape(text, p, r)
    case Finish(r) => ShapeAtEnd(text, p, r)
    case Reject(_, _) => true
  }

  // ---------- each state keeps it ----------

  lemma StartShape(text: Text, p: nat, r: Line)
    requires p < |text| && Shape(text, p, r) && r.state == Start
    ensures VerdictShape(text, p, OnStart(r, p, text[p]))
  {
    hide Begun, InSchema, InHost, InUri, AfterTarget, InName, InMajor, AfterDot, InMinor, Whole;
  }

  lemma MethodShape(text: Text, p: nat, r: Line)
    requires p < |text| && Shape(text, p, r) && r.state == Method
    ensures VerdictShape(text, p, OnMethod(text, r, p, text[p]))
  {
    hide MethodCode, InSchema, InHost, InUri, AfterTarget, InName, InMajor, AfterDot, InMinor, Whole;
  }

  lemma SpacesBeforeUriShape(text: Text, p: nat, r: Line)
    requires p < |text| && Shape(text, p, r) && r.state == SpacesBeforeUri
    ensures VerdictShape(text, p, OnSpacesBeforeUri(r, p, text[p]))
  {
    hide LineEnds, RequestSlices.Token, MethodCode, InSchema, InHost, AfterTarget, InName, InMajor, AfterDot, InMinor, Whole;
  }

  lemma SchemaShape(text: Text, p: nat, r: Line)
    requires p < |text| && Shape(text, p, r)
    ensures r.state == Schema ==> VerdictShape(text, p, OnSchema(r, p, text[p]))
    ensures r.state == SchemaSlash ==> VerdictShape(text, p, Expect(r, text[p], '/', SchemaSlashSlash))
    ensures r.state == SchemaSlashSlash ==> VerdictShape(text, p, Expect(r, text[p], '/', HostStart))
  {
    hide LineEnds, RequestSlices.Token, MethodCode, InHost, InUri, AfterTarget, InName, InMajor, AfterDot, InMinor, Whole;
  }

  /** The host ends at p: with a port, a path, or a space. */
  lemma HostEndShape(text: Text, p: nat, r: Line)
    requires p < |text| && Begun(text, r) && Unversioned(r) && r.portEnd == NULL
    requires Hosted(text, r.methodEnd, r.schemaStart, r.schemaEnd, r.hostStart)
    requires r.hostStart <= p && RequestSlices.HostName(text, r.hostStart, p)
    ensures VerdictShape(text, p, OnHostEnd(r, p, text[p]))
  {
    hide Named, RequestSlices.HostName, InSchema, InName, InMajor, AfterDot, InMinor, Whole;
    if text[p] == ' ' {
      var r' := OnHostEnd(r, p, text[p]).line;
      assert Targeted(text, r', p) && Spaces(text, p, p + 1);
    }
  }

  lemma HostShape(text: Text, p: nat, r: Line)
    requires p < |text| && Shape(text, p, r)
    ensures r.state == HostStart ==> VerdictShape(text, p, OnHostStart(r, p, text[p]))
    ensures r.state == Host ==> VerdictShape(text, p, OnHost(r, p, text[p]))
    ensures r.state == HostEnd ==> VerdictShape(text, p, OnHostEnd(r, p, text[p]))
  {
    hide Named, OnHostEnd, InUri, AfterTarget, InName, InMajor, AfterDot, InMinor, Whole;
    if r.state == HostStart {
      HostEndShape(text, p, r.(hostStart := p, state := Host));
    } else if r.state == Host || r.state == HostEnd {
      HostEndShape(text, p, r);
    }
  }

  lemma HostIpLiteralShape(text: Text, p: nat, r: Line)
    requires p < |text| && Shape(text, p, r) && r.state == HostIpLiteral
    ensures VerdictShape(text, p, OnHostIpLiteral(r, text[p]))
  {
    hide IsLiteralByte, Named, InSchema, InUri, AfterTarget, InName, InMajor, AfterDot, InMinor, Whole;
  }

  lemma PortShape(text: Text, p: nat, r: Line)
    requires p < |text| && Shape(text, p, r) && r.state == Port
    ensures VerdictShape(text, p, OnPort(r, p, text[p]))
  {
    hide Named, RequestSlices.HostName, InSchema, InName, InMajor, AfterDot, InMinor, Whole;
    if text[p] == ' ' {
      var r' := OnPort(r, p, text[p]).line;
      assert Targeted(text, r', p) && Spaces(text, p, p + 1);
    }
  }

  /** Inside the URI only the fields that describe its bytes change. */
  lemma InUriStays(text: Text, p: nat, r: Line, r': Line)
    requires p < |text| && InUri(text, p, r)
    requires r' == r.(state := r'.state, complexUri := r'.complexUri, quotedUri := r'.quotedUri, plusInUri := r'.plusInUri,
                      uriExt := r'.uriExt, argsStart := r'.argsStart)
    ensures InUri(text, p + 1, r')
  {
    hide Named, Direct;
  }

  lemma StaysInUri(text: Text, p: nat, r: Line, r': Line)
    requires p < |text| && InUri(text, p, r) && RoundTrip.OnlyTarget(r, r')
    ensures Shape(text, p + 1, r')
  {
    InUriStays(text, p, r, r');
    hide InUri;
  }

  lemma EndVerdicts(r: Line, p: nat, ch: Byte)
    ensures EndsUri(ch) ==> OnAfterSlashInUri(r, p, ch) == EndUri(r, p, ch, CheckUriHttp09)
    ensures EndsUri(ch) ==> OnCheckUri(r, p, ch) == EndUri(r, p, ch, CheckUriHttp09)
    ensures EndsUri(ch) ==> OnUri(r, p, ch) == EndUri(r, p, ch, Http09)
    ensures EndsUri(ch) <==> ch == ' ' || ch == CR || ch == LF
    ensures ch == NUL ==> OnAfterSlashInUri(r, p, ch).Reject? && OnCheckUri(r, p, ch).Reject? && OnUri(r, p, ch).Reject?
  {
    hide EndUri;
  }

  lemma AfterSlashInUriShape(text: Text, p: nat, r: Line)
    requires p < |text| && Shape(text, p, r) && r.state == AfterSlashInUri
    ensures VerdictShape(text, p, OnAfterSlashInUri(r, p, text[p]))
  {
    hide InUri, EndUri, EndsUri, OnAfterSlashInUri;
    EndVerdicts(r, p, text[p]);
    if EndsUri(text[p]) {
      EndUriShape(text, p, r, CheckUriHttp09);
    } else if text[p] != NUL {
      RoundTrip.SlashStep(r, p, text[p]);
      StaysInUri(text, p, r, OnAfterSlashInUri(r, p, text[p]).line);
    }
  }

  lemma CheckUriShape(text: Text, p: nat, r: Line)
    requires p < |text| && Shape(text, p, r) && r.state == CheckUri
    ensures VerdictShape(text, p, OnCheckUri(r, p, text[p]))
  {
    hide InUri, EndUri, EndsUri, OnCheckUri;
    EndVerdicts(r, p, text[p]);
    if EndsUri(text[p]) {
      EndUriShape(text, p, r, CheckUriHttp09);
    } else if text[p] != NUL {
      RoundTrip.CheckStep(r, p, text[p]);
      StaysInUri(text, p, r, OnCheckUri(r, p, text[p]).line);
    }
  }

  lemma UriShape(text: Text, p: nat, r: Line)
    requires p < |text| && Shape(text, p, r) && r.state == Uri
    ensures VerdictShape(text, p, OnUri(r, p, text[p]))
  {
    hide InUri, EndUri, EndsUri, OnUri;
    EndVerdicts(r, p, text[p]);
    if EndsUri(text[p]) {
      EndUriShape(text, p, r, Http09);
    } else if text[p] != NUL {
      RoundTrip.UriStep(r, p, text[p]);
      StaysInUri(text, p, r, OnUri(r, p, text[p]).line);
    }
  }

  lemma EndUriShape(text: Text, p: nat, r: Line, after: State)
    requires p < |text| && InUri(text, p, r) && EndsUri(text[p]) && (after == CheckUriHttp09 || after == Http09)
    ensures VerdictShape(text, p, EndUri(r, p, text[p], after))
  {
    hide Named, Direct, Root, InSchema, InHost, InName, InMajor, AfterDot, InMinor;
    var r' := EndUri(r, p, text[p], after).line;
    assert Targeted(text, r', p) && Spaces(text, p, p) && (text[p] == ' ' ==> Spaces(text, p, p + 1));
    if text[p] != ' ' {
      assert Versioned(text, p, p, r');
    }
  }

  /** What may follow the target: a space, the protocol, or the end of the line. */
  lemma TargetFollowed(text: Text, p: nat, r: Line, state: State)
    requires p < |text| && AfterTarget(text, p, r)
    ensures text[p] == ' ' ==> AfterTarget(text, p + 1, r)
    ensures text[p] == 'H' ==> InName(text, p + 1, r.(protocol := p, state := HttpH), 1)
    ensures Whole(text, p, r.(minor := 9, state := state))
  {
    hide Named, Direct, Root;
    var gap :| gap < p && Targeted(text, r, gap) && Spaces(text, gap, p);
    if text[p] == ' ' {
      assert Spaces(text, gap, p + 1);
    }
    var ended, named := r.(minor := 9, state := state), r.(protocol := p, state := HttpH);
    assert Targeted(text, ended, gap) && Versioned(text, gap, p, ended);
    assert Targeted(text, named, gap);
    assert text[p] == 'H' ==> text[p..p + 1] == NAME[..1];
  }

  lemma AfterUriShape(text: Text, p: nat, r: Line)
    requires p < |text| && AfterTarget(text, p, r)
    requires r.state == HostHttp09 || ((r.state == CheckUriHttp09 || r.state == Http09) && IsDirect(text, r))
    ensures VerdictShape(text, p, OnAfterUri(r, p, text[p]))
  {
    TargetFollowed(text, p, r, AlmostDone);
    TargetFollowed(text, p, r, r.state);
    BegunOpen(text, p, r);
    hide AfterTarget, InName, InSchema, InHost, InMajor, AfterDot, InMinor, Whole, Direct, InUri;
    if text[p] == LF {
      assert OnAfterUri(r, p, text[p]).line.(requestEnd := NULL) == r.(minor := 9, state := r.state);
    }
  }

  lemma BegunOpen(text: Text, p: nat, r: Line)
    requires AfterTarget(text, p, r)
    ensures r.requestEnd == NULL
  {
  }

  lemma SpacesAfterUriShape(text: Text, p: nat, r: Line)
    requires p < |text| && Shape(text, p, r)
    ensures r.state == HostHttp09 ==> VerdictShape(text, p, OnAfterUri(r, p, text[p]))
    ensures r.state == CheckUriHttp09 ==> VerdictShape(text, p, OnSpacesAfterUri(r, p, text[p], CheckUri))
    ensures r.state == Http09 ==> VerdictShape(text, p, OnSpacesAfterUri(r, p, text[p], Uri))
  {
    hide Named, Direct, Root, OnAfterUri, InSchema, InHost, InName, InMajor, AfterDot, InMinor, Whole;
    if r.state == HostHttp09 || r.state == CheckUriHttp09 || r.state == Http09 {
      AfterUriShape(text, p, r);
      TargetBefore(text, p, r);
    }
  }

  lemma TargetBefore(text: Text, p: nat, r: Line)
    requires AfterTarget(text, p, r)
    ensures r.uriStart < p
  {
    var gap :| gap < p && Targeted(text, r, gap) && Spaces(text, gap, p);
  }

  lemma NextNameByte(text: Text, p: nat, protocol: int)
    requires p < |text| && NameSoFar(text, protocol, p) && p - protocol < 5 && text[p] == NAME[p - protocol]
    ensures NameSoFar(text, protocol, p + 1)
  {
    assert text[protocol..p + 1] == text[protocol..p] + [text[p]];
    assert NAME[..p + 1 - protocol] == NAME[..p - protocol] + [NAME[p - protocol]];
  }

  lemma NameShape(text: Text, p: nat, r: Line, length: nat, next: State)
    requires p < |text| && InName(text, p, r, length) && length < 5 && text[p] == NAME[length]
    ensures InName(text, p + 1, r.(state := next), length + 1)
  {
    hide Named, Targeted;
    NextNameByte(text, p, r.protocol);
    SameIntroduced(text, r, r.(state := next));
  }

  lemma SameIntroduced(text: Text, r: Line, r': Line)
    requires Introduced(text, r) && r' == r.(state := r'.state, major := r'.major, minor := r'.minor, requestEnd := r'.requestEnd)
    ensures Introduced(text, r')
  {
    hide Direct, Root;
    var gap :| gap < r.protocol && Targeted(text, r, gap) && Spaces(text, gap, r.protocol);
    assert Targeted(text, r', gap);
  }

  lemma ExpectShape(text: Text, p: nat, r: Line)
    requires p < |text| && Shape(text, p, r)
    ensures r.state == HttpH ==> VerdictShape(text, p, Expect(r, text[p], 'T', HttpHT))
    ensures r.state == HttpHT ==> VerdictShape(text, p, Expect(r, text[p], 'T', HttpHTT))
    ensures r.state == HttpHTT ==> VerdictShape(text, p, Expect(r, text[p], 'P', HttpHTTP))
    ensures r.state == HttpHTTP ==> VerdictShape(text, p, Expect(r, text[p], '/', FirstMajorDigit))
  {
    hide InName, Begun, InSchema, InHost, InUri, AfterTarget, InMajor, AfterDot, InMinor, Whole;
    if r.state == HttpH && text[p] == 'T' {
      NameShape(text, p, r, 1, HttpHT);
    } else if r.state == HttpHT && text[p] == 'T' {
      NameShape(text, p, r, 2, HttpHTT);
    } else if r.state == HttpHTT && text[p] == 'P' {
      NameShape(text, p, r, 3, HttpHTTP);
    } else if r.state == HttpHTTP && text[p] == '/' {
      NameShape(text, p, r, 4, FirstMajorDigit);
    }
  }

  lemma FirstDigit(text: Text, p: nat)
    requires p < |text| && IsDigit(text[p])
    ensures Number(text, p, p + 1, DigitValue(text[p]))
  {
    DigitsAsSlice(text, p, p + 1);
    assert text[p..p + 1] == [text[p]];
    RoundTrip.OneDigit(text[p]);
  }

  lemma NextDigit(text: Text, from: int, p: nat, n: nat)
    requires p < |text| && IsDigit(text[p]) && Number(text, from, p, n)
    ensures Number(text, from, p + 1, AppendDigit(n, text[p]))
  {
    RoundTrip.AppendValue(text, from, p);
  }

  lemma MajorShape(text: Text, p: nat, r: Line)
    requires p < |text| && Shape(text, p, r)
    ensures r.state == FirstMajorDigit ==> VerdictShape(text, p, OnFirstMajorDigit(r, text[p]))
    ensures r.state == MajorDigit ==> VerdictShape(text, p, OnMajorDigit(r, text[p]))
  {
    hide Named, Number, Introduced, AppendDigit, DigitValue, InSchema, InHost, InUri, AfterTarget, InMinor, Whole;
    if r.state == FirstMajorDigit && '1' <= text[p] <= '9' {
      FirstDigit(text, p);
      SameIntroduced(text, r, OnFirstMajorDigit(r, text[p]).line);
    } else if r.state == MajorDigit && (text[p] == '.' || IsDigit(text[p])) {
      SameIntroduced(text, r, OnMajorDigit(r, text[p]).line);
      if text[p] != '.' {
        NextDigit(text, r.protocol + 5, p, r.major);
      }
    }
  }

  lemma FirstMinorShape(text: Text, p: nat, r: Line)
    requires p < |text| && Shape(text, p, r) && r.state == FirstMinorDigit
    ensures VerdictShape(text, p, OnFirstMinorDigit(r, text[p]))
  {
    hide Named, Number, Major, Introduced, DigitValue, InSchema, InHost, InUri, AfterTarget, Whole;
    if IsDigit(text[p]) {
      FirstDigit(text, p);
      SameIntroduced(text, r, OnFirstMinorDigit(r, text[p]).line);
      assert Version(text, r.protocol, p + 1, r.major, DigitValue(text[p])) by {
        assert Major(text, r.protocol, p - 1, r.major) && text[p - 1] == '.' && Number(text, p, p + 1, DigitValue(text[p]));
      }
    }
  }

  lemma MinorShape(text: Text, p: nat, r: Line)
    requires p < |text| && Shape(text, p, r) && r.state == MinorDigit
    ensures VerdictShape(text, p, OnMinorDigit(r, text[p]))
  {
    hide Named, Version, Introduced, AppendDigit, InSchema, InHost, InUri, AfterTarget, Targeted, Versioned;
    if IsDigit(text[p]) {
      SameIntroduced(text, r, OnMinorDigit(r, text[p]).line);
      NextMinorDigit(text, p, r);
    } else if text[p] == CR || text[p] == LF || text[p] == ' ' {
      MinorEnds(text, p, r, OnMinorDigit(r, text[p]).line);
    }
  }

  lemma NextMinorDigit(text: Text, p: nat, r: Line)
    requires p < |text| && IsDigit(text[p]) && Version(text, r.protocol, p, r.major, r.minor)
    ensures Version(text, r.protocol, p + 1, r.major, AppendDigit(r.minor, text[p]))
  {
    hide Number, AppendDigit;
    var dot :| r.protocol < dot < p && dot < |text| && Major(text, r.protocol, dot, r.major) && text[dot] == '.' && Number(text, dot + 1, p, r.minor);
    NextDigit(text, dot + 1, p, r.minor);
  }

  /** The version is complete. */
  lemma MinorEnds(text: Text, p: nat, r: Line, r': Line)
    requires p < |text| && InMinor(text, p, r) && r' == r.(state := r'.state)
    ensures Whole(text, p, r') && r'.protocol != NULL
    ensures text[p] == ' ' ==> Whole(text, p + 1, r')
  {
    hide Named, Direct, Root, Version;
    var gap :| gap < r.protocol && Targeted(text, r, gap) && Spaces(text, gap, r.protocol);
    VersionAfter(text, r.protocol, p, r.major, r.minor);
    assert Targeted(text, r', gap) && Spaces(text, p, p) && Versioned(text, gap, p, r');
    if text[p] == ' ' {
      assert Spaces(text, p, p + 1) && Versioned(text, gap, p + 1, r');
    }
  }

  lemma VersionAfter(text: Text, protocol: int, end: int, major: nat, minor: nat)
    requires Version(text, protocol, end, major, minor)
    ensures protocol < end
  {
  }

  lemma SpacesAfterDigitShape(text: Text, p: nat, r: Line)
    requires p < |text| && Shape(text, p, r) && r.state == SpacesAfterDigit
    ensures VerdictShape(text, p, OnSpacesAfterDigit(r, text[p]))
  {
    hide Named, InSchema, InHost, InUri, AfterTarget, InName, InMajor, AfterDot, InMinor, Targeted, Version;
    var v := OnSpacesAfterDigit(r, text[p]);
    if v.Advance? || v.Finish? {
      WholeStays(text, p, r, v.line);
    }
  }

  lemma WholeStays(text: Text, p: nat, r: Line, r': Line)
    requires p < |text| && Whole(text, p, r) && r.protocol != NULL && r' == r.(state := r'.state)
    ensures Whole(text, p, r') && (text[p] == ' ' ==> Whole(text, p + 1, r'))
  {
    hide Named, Direct, Root, Version;
    var gap :| gap <= p && Targeted(text, r, gap) && Versioned(text, gap, p, r);
    var e :| r.protocol < e <= p && Version(text, r.protocol, e, r.major, r.minor) && Spaces(text, e, p);
    assert Targeted(text, r', gap) && Versioned(text, gap, p, r');
    if text[p] == ' ' {
      assert Spaces(text, e, p + 1) && Versioned(text, gap, p + 1, r');
    }
  }

  lemma AlmostDoneShape(text: Text, p: nat, r: Line)
    requires p < |text| && Shape(text, p, r) && r.state == AlmostDone
    ensures VerdictShape(text, p, OnAlmostDone(r, p, text[p]))
  {
    hide Named, Direct, Root, Versioned, InSchema, InHost, InUri, AfterTarget, InName, InMajor, AfterDot, InMinor;
    var gap :| gap <= p - 1 && Targeted(text, r, gap) && Versioned(text, gap, p - 1, r);
    SameVersioned(text, gap, p - 1, r, r.(requestEnd := NULL));
    assert r.(requestEnd := p - 1).(requestEnd := NULL) == r;
  }

  lemma SameVersioned(text: Text, gap: int, end: int, r: Line, r': Line)
    requires Versioned(text, gap, end, r) && r'.protocol == r.protocol && r'.major == r.major && r'.minor == r.minor
    ensures Versioned(text, gap, end, r')
  {
  }

  lemma DispatchShape(text: Text, p: nat, r: Line)
    requires p < |text| && Shape(text, p, r)
    ensures VerdictShape(text, p, Dispatch(text, p, r))
  {
    hide Shape, VerdictShape, OnStart, OnMethod, OnSpacesBeforeUri, OnSchema, Expect, OnHostStart, OnHost, OnHostEnd,
      OnHostIpLiteral, OnPort, OnAfterUri, OnAfterSlashInUri, OnCheckUri, OnSpacesAfterUri, OnUri, OnFirstMajorDigit,
      OnMajorDigit, OnFirstMinorDigit, OnMinorDigit, OnSpacesAfterDigit, OnAlmostDone;
    match r.state
    case Start => StartShape(text, p, r);
    case Method => MethodShape(text, p, r);
    case SpacesBeforeUri => SpacesBeforeUriShape(text, p, r);
    case Schema => SchemaShape(text, p, r);
    case SchemaSlash => SchemaShape(text, p, r);
    case SchemaSlashSlash => SchemaShape(text, p, r);
    case HostStart => HostShape(text, p, r);
    case Host => HostShape(text, p, r);
    case HostEnd => HostShape(text, p, r);
    case HostIpLiteral => HostIpLiteralShape(text, p, r);
    case Port => PortShape(text, p, r);
    case HostHttp09 => SpacesAfterUriShape(text, p, r);
    case AfterSlashInUri => AfterSlashInUriShape(text, p, r);
    case CheckUri => CheckUriShape(text, p, r);
    case CheckUriHttp09 => SpacesAfterUriShape(text, p, r);
    case Uri => UriShape(text, p, r);
    case Http09 => SpacesAfterUriShape(text, p, r);
    case HttpH => ExpectShape(text, p, r);
    case HttpHT => ExpectShape(text, p, r);
    case HttpHTT => ExpectShape(text, p, r);
    case HttpHTTP => ExpectShape(text, p, r);
    case FirstMajorDigit => MajorShape(text, p, r);
    case MajorDigit => MajorShape(text, p, r);
    case FirstMinorDigit => FirstMinorShape(text, p, r);
    case MinorDigit => MinorShape(text, p, r);
    case SpacesAfterDigit => SpacesAfterDigitShape(text, p, r);
    case AlmostDone => AlmostDoneShape(text, p, r);
  }

  // ---------- whole lines ----------

  /** A complete request line that ends just before `pos`, with all its fields. */
  ghost predicate CompleteLine(text: Text, pos: nat, r: Line) {
    && 0 < pos <= |text| && text[pos - 1] == LF
    && (r.requestEnd == pos - 1 || (r.requestEnd == pos - 2 >= 0 && text[pos - 2] == CR))
    && Named(text, r.requestStart, r.methodEnd, r.verb)
    && (exists gap | gap <= r.requestEnd :: Targeted(text, r, gap) && Versioned(text, gap, r.requestEnd, r))
    && r.version == r.major * 1000 + r.minor && r.state == Start
  }

  lemma ConcludeShape(text: Text, p: nat, r: Line)
    requires p < |text| && text[p] == LF && ShapeAtEnd(text, p, r)
    ensures CompleteLine(text, p + 1, Conclude(r, p).line)
  {
    hide Named, Direct, Root, Versioned;
    var r' := Conclude(r, p).line;
    var end := if r.requestEnd == NULL then p else r.requestEnd;
    var open := r.(requestEnd := NULL);
    var gap :| gap <= end && Targeted(text, open, gap) && Versioned(text, gap, end, open);
    SameVersioned(text, gap, end, open, r');
    assert Targeted(text, r', gap);
  }

  lemma {:induction false} RunShape(text: Text, p: nat, r: Line)
    requires p <= |text| && Shape(text, p, r)
    ensures match Run(text, p, r)
            case Complete(_, r', pos) => CompleteLine(text, pos, r')
            case _ => true
    decreases |text| - p, if MayRedo(r.state) then 1 else 0
  {
    hide Dispatch, Run, Shape, ShapeAtEnd, Conclude, CompleteLine;
    if p < |text| {
      DispatchShape(text, p, r);
      DispatchRedo(text, p, r);
      RunStep(text, p, r);
      match Dispatch(text, p, r)
      case Advance(line) => RunShape(text, p + 1, line);
      case Redo(line) => RunShape(text, p, line);
      case Finish(line) =>
        FinishAtLineFeed(text, p, r);
        ConcludeShape(text, p, line);
      case Reject(_, _) =>
    } else {
      RunEnd(text, r);
    }
  }

  /** Every completed line has the grammar's form, and each field is what the text says. */
  lemma EveryLineHasTheForm(text: Text, code: int, r: Line, pos: nat)
    requires Run(text, 0, ZERO) == Complete(code, r, pos)
    ensures CompleteLine(text, pos, r)
    ensures code == if r.version == 9 && r.verb != HTTP_GET then INVALID_09_METHOD else OS_OK
  {
    hide Run, CompleteLine;
    RunShape(text, 0, ZERO);
    CompleteCode(text, 0, ZERO);
  }

  lemma {:induction false} CompleteCode(text: Text, p: nat, r: Line)
    requires p <= |text|
    ensures match Run(text, p, r)
            case Complete(code, r', _) => code == if r'.version == 9 && r'.verb != HTTP_GET then INVALID_09_METHOD else OS_OK
            case _ => true
    decreases |text| - p, if MayRedo(r.state) then 1 else 0
  {
    hide Dispatch;
    if p < |text| {
      DispatchRedo(text, p, r);
      match Dispatch(text, p, r)
      case Advance(line) => CompleteCode(text, p + 1, line);
      case Redo(line) => CompleteCode(text, p, line);
      case Finish(_) =>
      case Reject(_, _) =>
    }
  }
}
