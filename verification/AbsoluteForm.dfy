/**
 The round trip for targets in absolute form: schema, host and port come back as well.
 (Section 5.3.2 of RFC 7230.)
 */
module AbsoluteForm {
  import opened Common
  import opened RequestLine
  import opened RoundTrip
  import RequestSlices

  predicate IsSchema(s: Text) {
    s != [] && forall c | c in s :: IsLetter(c)
  }

  /** A registered name, which may be empty, or an IP literal in brackets. */
  predicate IsHost(h: Text) {
    RequestSlices.HostName(h, 0, |h|)
  }

  /** Nothing, or a colon and digits, which may be none. */
  predicate IsPort(s: Text) {
    s == [] || (s[0] == ':' && forall c | c in s[1..] :: IsDigit(c))
  }

  const SLASHES: Text := "://"

  function PrintAbsolute(m: Text, schema: Text, host: Text, port: Text, target: Text, major: Text, minor: Text): Text {
    m + " " + schema + SLASHES + host + port + target + PROTOCOL + major + "." + minor + LINE_END
  }

  // ---------- the phases of the run ----------

  lemma {:induction false} OverLetters(text: Text, p: nat, q: nat, r: Line)
    requires p <= q <= |text| && r.state == Schema && forall j | p <= j < q :: IsLetter(text[j])
    ensures Run(text, p, r) == Run(text, q, r)
    decreases q - p
  {
    hide IsLetter;
    if p < q {
      RunStep(text, p, r);
      OverLetters(text, p + 1, q, r);
    }
  }

  /** From the space after the method to the host. */
  lemma OverSchema(text: Text, p: nat, q: nat, r: Line)
    requires p < q && q + 3 <= |text| && r.state == SpacesBeforeUri && forall j | p <= j < q :: IsLetter(text[j])
    requires text[q] == ':' && text[q + 1] == '/' && text[q + 2] == '/'
    ensures Run(text, p, r) == Run(text, q + 3, r.(schemaStart := p, schemaEnd := q, state := HostStart))
  {
    hide Run;
    var r' := r.(schemaStart := p, state := Schema);
    RunStep(text, p, r);
    OverLetters(text, p + 1, q, r');
    RunStep(text, q, r');
    r' := r'.(schemaEnd := q);
    RunStep(text, q + 1, r'.(state := SchemaSlash));
    RunStep(text, q + 2, r'.(state := SchemaSlashSlash));
  }

  lemma {:induction false} OverHostBytes(text: Text, p: nat, q: nat, r: Line)
    requires p <= q <= |text| && r.state == Host && forall j | p <= j < q :: IsHostByte(text[j])
    ensures Run(text, p, r) == Run(text, q, r)
    decreases q - p
  {
    hide IsHostByte, OnHostEnd;
    if p < q {
      RunStep(text, p, r);
      OverHostBytes(text, p + 1, q, r);
    }
  }

  lemma {:induction false} OverLiteralBytes(text: Text, p: nat, q: nat, r: Line)
    requires p <= q <= |text| && r.state == HostIpLiteral && forall j | p <= j < q :: IsLiteralByte(text[j])
    ensures Run(text, p, r) == Run(text, q, r)
    decreases q - p
  {
    hide IsLiteralByte;
    if p < q {
      RunStep(text, p, r);
      OverLiteralBytes(text, p + 1, q, r);
    }
  }

  predicate EndsHost(ch: Byte) {
    ch == ':' || ch == '/'
  }

  /** The fields after the byte that ends the host. */
  function HostEnded(r: Line, p: nat, q: nat, ch: Byte): Line {
    var r := r.(hostStart := p, hostEnd := q);
    if ch == ':' then r.(state := Port) else r.(uriStart := q, state := AfterSlashInUri)
  }

  lemma OverName(text: Text, p: nat, q: nat, r: Line)
    requires p <= q < |text| && r.state == HostStart && EndsHost(text[q]) && forall j | p <= j < q :: IsHostByte(text[j])
    ensures Run(text, p, r) == Run(text, q + 1, HostEnded(r, p, q, text[q]))
  {
    hide Run;
    RunStep(text, p, r);
    if p < q {
      var r' := r.(hostStart := p, state := Host);
      OverHostBytes(text, p + 1, q, r');
      RunStep(text, q, r');
    }
  }

  lemma OverLiteral(text: Text, p: nat, q: nat, r: Line)
    requires p <= q < |text| && r.state == HostStart && EndsHost(text[q]) && RequestSlices.Literal(text, p, q)
    ensures Run(text, p, r) == Run(text, q + 1, HostEnded(r, p, q, text[q]))
  {
    hide Run;
    var r' := r.(hostStart := p, state := HostIpLiteral);
    RunStep(text, p, r);
    OverLiteralBytes(text, p + 1, q - 1, r');
    RunStep(text, q - 1, r');
    RunStep(text, q, r'.(state := HostEnd));
  }

  lemma {:induction false} OverPortDigits(text: Text, p: nat, q: nat, r: Line)
    requires p <= q <= |text| && r.state == Port && forall j | p <= j < q :: IsDigit(text[j])
    ensures Run(text, p, r) == Run(text, q, r)
    decreases q - p
  {
    hide IsDigit;
    if p < q {
      RunStep(text, p, r);
      OverPortDigits(text, p + 1, q, r);
    }
  }

  /** The authority from its first byte to the slash after it. */
  lemma OverAuthority(text: Text, p: nat, q: nat, slash: nat, r: Line)
    requires p <= q <= slash < |text| && r.state == HostStart && r.portEnd == NULL && RequestSlices.HostName(text, p, q)
    requires text[slash] == '/' && (q < slash ==> text[q] == ':' && forall j | q < j < slash :: IsDigit(text[j]))
    ensures Run(text, p, r) == Run(text, slash + 1, r.(hostStart := p, hostEnd := q, portEnd := if q < slash then slash else NULL,
                                                       uriStart := slash, state := AfterSlashInUri))
  {
    hide Run;
    if RequestSlices.Literal(text, p, q) {
      OverLiteral(text, p, q, r);
    } else {
      OverName(text, p, q, r);
    }
    if q < slash {
      var r' := HostEnded(r, p, q, ':');
      OverPortDigits(text, q + 1, slash, r');
      RunStep(text, slash, r');
    }
  }

  // ---------- the round trip ----------

  /** What the parser records of a printed line in absolute form. */
  predicate RecoversAbsolute(r: Line, m: Text, schema: Text, host: Text, port: Text, target: Text, major: Text, minor: Text)
    requires IsNumeral(major) && IsNumeral(minor)
  {
    var s := |m| + 1;
    var h := s + |schema| + 3;
    var uri := h + |host| + |port|;
    var end := uri + |target|;
    && r.state == Start && r.verb == MethodCode(m, 0) && r.requestStart == 0 && r.methodEnd == |m| - 1
    && r.schemaStart == s && r.schemaEnd == s + |schema|
    && r.hostStart == h && r.hostEnd == h + |host| && r.portEnd == (if port == [] then NULL else uri)
    && r.uriStart == uri && r.uriEnd == end && r.protocol == end + 1
    && r.requestEnd == end + |PROTOCOL| + |major| + 1 + |minor|
    && r.major == Value(major) % 0x1_0000 && r.minor == Value(minor) % 0x1_0000
    && r.version == r.major * 1000 + r.minor && !r.spaceInUri
  }

  lemma AllLetters(text: Text, from: nat, s: Text)
    requires Lies(text, from, s) && IsSchema(s)
    ensures forall j | from <= j < from + |s| :: IsLetter(text[j])
  {
    var t := text[from..from + |s|];
    forall j | from <= j < from + |s| ensures IsLetter(text[j]) {
      assert t[j - from] in s;
    }
  }

  lemma HostLies(text: Text, from: nat, h: Text)
    requires Lies(text, from, h) && IsHost(h)
    ensures RequestSlices.HostName(text, from, from + |h|)
  {
    var t := text[from..from + |h|];
    assert forall j | from <= j < from + |h| :: text[j] == t[j - from];
    if RequestSlices.Literal(h, 0, |h|) {
      assert RequestSlices.Literal(text, from, from + |h|);
    } else {
      forall j | from <= j < from + |h| ensures IsHostByte(text[j]) {
        assert t[j - from] == h[j - from];
      }
    }
  }

  lemma PortLies(text: Text, from: nat, s: Text)
    requires Lies(text, from, s) && IsPort(s) && s != []
    ensures text[from] == ':' && forall j | from < j < from + |s| :: IsDigit(text[j])
  {
    var t := text[from..from + |s|];
    assert t[0] == text[from];
    forall j | from < j < from + |s| ensures IsDigit(text[j]) {
      assert t[j - from] == s[1..][j - from - 1];
    }
  }

  /** The fields before the target: the schema ends at `colon`, the host at `hostEnd`, the authority at `uri`. */
  function Fronted(m: Text, colon: nat, hostEnd: nat, uri: nat): Line {
    AfterMethod(m).(schemaStart := |m| + 1, schemaEnd := colon, hostStart := colon + 3, hostEnd := hostEnd,
                    portEnd := if hostEnd == uri then NULL else uri, uriStart := uri, state := AfterSlashInUri)
  }

  /** Method, schema, host and port lie before the target's slash. */
  predicate Front(text: Text, m: Text, colon: nat, hostEnd: nat, uri: nat) {
    && |m| + 1 < colon && colon + 3 <= hostEnd <= uri < |text|
    && Lies(text, 0, m) && text[|m|] == ' ' && (forall j | |m| < j < colon :: IsLetter(text[j]))
    && text[colon] == ':' && text[colon + 1] == '/' && text[colon + 2] == '/'
    && RequestSlices.HostName(text, colon + 3, hostEnd) && text[uri] == '/'
    && (hostEnd < uri ==> text[hostEnd] == ':' && forall j | hostEnd < j < uri :: IsDigit(text[j]))
  }

  /** Everything up to the target's slash. */
  lemma OverFront(text: Text, m: Text, colon: nat, hostEnd: nat, uri: nat)
    requires IsMethod(m) && Front(text, m, colon, hostEnd, uri)
    ensures Run(text, 0, ZERO) == Run(text, uri + 1, Fronted(m, colon, hostEnd, uri))
  {
    var r := AfterMethod(m);
    assert r.state == SpacesBeforeUri && r.portEnd == NULL;
    hide *;
    OverStart(text, m);
    OverSchema(text, |m| + 1, colon, r);
    OverAuthority(text, colon + 3, hostEnd, uri, r.(schemaStart := |m| + 1, schemaEnd := colon, state := HostStart));
    FrontedIs(m, colon, hostEnd, uri);
  }

  lemma FrontedIs(m: Text, colon: nat, hostEnd: nat, uri: nat)
    ensures Fronted(m, colon, hostEnd, uri) ==
            AfterMethod(m).(schemaStart := |m| + 1, schemaEnd := colon, hostStart := colon + 3, hostEnd := hostEnd,
                            portEnd := if hostEnd == uri then NULL else uri, uriStart := uri, state := AfterSlashInUri)
    ensures Fronted(m, colon, hostEnd, uri).state == AfterSlashInUri
  {
  }

  /** Where the parts before the target lie. */
  lemma FrontPieces(m: Text, schema: Text, host: Text, port: Text, rest: Text)
    requires rest != [] && rest[0] == '/'
    ensures var text := m + " " + schema + SLASHES + host + port + rest;
            var colon := |m| + 1 + |schema|;
            var hostEnd := colon + 3 + |host|;
            && Lies(text, 0, m) && hostEnd + |port| < |text| && text[|m|] == ' ' && Lies(text, |m| + 1, schema)
            && text[colon] == ':' && text[colon + 1] == '/' && text[colon + 2] == '/'
            && Lies(text, colon + 3, host) && Lies(text, hostEnd, port) && text[hostEnd + |port|] == '/'
  {
  }

  lemma FrontLies(m: Text, schema: Text, host: Text, port: Text, rest: Text)
    requires IsSchema(schema) && IsHost(host) && IsPort(port) && rest != [] && rest[0] == '/'
    ensures var colon := |m| + 1 + |schema|;
            var hostEnd := colon + 3 + |host|;
            Front(m + " " + schema + SLASHES + host + port + rest, m, colon, hostEnd, hostEnd + |port|)
  {
    FrontPieces(m, schema, host, port, rest);
    FrontHolds(m + " " + schema + SLASHES + host + port + rest, m, schema, host, port, |m| + 1 + |schema|, |m| + 1 + |schema| + 3 + |host|);
    hide *;
  }

  lemma FrontHolds(text: Text, m: Text, schema: Text, host: Text, port: Text, colon: nat, hostEnd: nat)
    requires IsSchema(schema) && IsHost(host) && IsPort(port)
    requires colon == |m| + 1 + |schema| && hostEnd == colon + 3 + |host| && hostEnd + |port| < |text|
    requires Lies(text, 0, m) && text[|m|] == ' ' && Lies(text, |m| + 1, schema)
    requires text[colon] == ':' && text[colon + 1] == '/' && text[colon + 2] == '/'
    requires Lies(text, colon + 3, host) && Lies(text, hostEnd, port) && text[hostEnd + |port|] == '/'
    ensures Front(text, m, colon, hostEnd, hostEnd + |port|)
  {
    AllLetters(text, |m| + 1, schema);
    HostLies(text, colon + 3, host);
    if port != [] {
      PortLies(text, hostEnd, port);
    }
    hide IsHost, IsPort, RequestSlices.HostName, IsLetter, IsDigit;
  }

  lemma AbsoluteLayout(m: Text, schema: Text, host: Text, port: Text, target: Text, major: Text, minor: Text)
    requires IsSchema(schema) && IsHost(host) && IsPort(port) && IsTarget(target)
    ensures var text := PrintAbsolute(m, schema, host, port, target, major, minor);
            var colon := |m| + 1 + |schema|;
            var hostEnd := colon + 3 + |host|;
            var uri := hostEnd + |port|;
            Front(text, m, colon, hostEnd, uri) && RestLies(text, uri, target, major, minor)
  {
    var front := m + " " + schema + SLASHES + host + port;
    var rest := target + PROTOCOL + major + "." + minor + LINE_END;
    PrintSplits(m, schema, host, port, target, major, minor);
    assert rest != [] && rest[0] == '/';
    hide *;
    FrontLies(m, schema, host, port, rest);
    RestAfter(front, target, major, minor);
  }

  lemma PrintSplits(m: Text, schema: Text, host: Text, port: Text, target: Text, major: Text, minor: Text)
    ensures PrintAbsolute(m, schema, host, port, target, major, minor) ==
            (m + " " + schema + SLASHES + host + port) + (target + PROTOCOL + major + "." + minor + LINE_END)
  {
  }

  lemma RestAfter(front: Text, target: Text, major: Text, minor: Text)
    ensures RestLies(front + (target + PROTOCOL + major + "." + minor + LINE_END), |front|, target, major, minor)
  {
  }

  /** The line is complete after n bytes, and every part comes back. */
  predicate ParsesBack(result: Result, m: Text, schema: Text, host: Text, port: Text, target: Text, major: Text, minor: Text, n: nat)
    requires IsNumeral(major) && IsNumeral(minor)
  {
    match result
    case Complete(code, r, pos) =>
      && RecoversAbsolute(r, m, schema, host, port, target, major, minor) && pos == n
      && code == if r.version == 9 && r.verb != HTTP_GET then INVALID_09_METHOD else OS_OK
    case _ => false
  }

  /** What the end of the line makes of the fields. */
  lemma AbsoluteConcluded(m: Text, schema: Text, host: Text, port: Text, target: Text, major: Text, minor: Text, uri: nat, n: nat, r: Line)
    requires IsNumeral(major) && IsNumeral(minor)
    requires uri == |m| + 1 + |schema| + 3 + |host| + |port|
    requires n == uri + |target| + |PROTOCOL| + |major| + 1 + |minor| + 2
    requires OnlyTarget(Fronted(m, |m| + 1 + |schema|, |m| + 1 + |schema| + 3 + |host|, uri), r)
    ensures var end := uri + |target|;
            ParsesBack(Conclude(r.(uriEnd := end, protocol := end + 1, major := Value(major) % 0x1_0000, minor := Value(minor) % 0x1_0000,
                                   requestEnd := n - 2, state := AlmostDone), n - 1),
                       m, schema, host, port, target, major, minor, n)
  {
    hide Value, MethodCode, IsNumeral;
  }

  /** A text whose parts lie in these places parses back. */
  lemma LaidOutParses(text: Text, m: Text, schema: Text, host: Text, port: Text, target: Text, major: Text, minor: Text,
                      colon: nat, hostEnd: nat, uri: nat)
    requires IsMethod(m) && IsTarget(target) && IsNumeral(major) && IsNumeral(minor) && major[0] != '0'
    requires colon == |m| + 1 + |schema| && hostEnd == colon + 3 + |host| && uri == hostEnd + |port|
    requires Front(text, m, colon, hostEnd, uri) && RestLies(text, uri, target, major, minor)
    ensures ParsesBack(Run(text, 0, ZERO), m, schema, host, port, target, major, minor, |text|)
  {
    FrontedIs(m, colon, hostEnd, uri);
    LengthIs(text, uri, target, major, minor);
    hide *;
    OverFront(text, m, colon, hostEnd, uri);
    var r := OverRest(text, uri, target, major, minor, Fronted(m, colon, hostEnd, uri));
    AbsoluteConcluded(m, schema, host, port, target, major, minor, uri, |text|, r);
  }

  lemma LengthIs(text: Text, uri: nat, target: Text, major: Text, minor: Text)
    requires RestLies(text, uri, target, major, minor)
    ensures |text| == uri + |target| + |PROTOCOL| + |major| + 1 + |minor| + 2
  {
  }

  /** The round trip for a target in absolute form. */
  lemma PrintThenParseAbsolute(m: Text, schema: Text, host: Text, port: Text, target: Text, major: Text, minor: Text)
    requires IsMethod(m) && IsSchema(schema) && IsHost(host) && IsPort(port)
    requires IsTarget(target) && IsNumeral(major) && IsNumeral(minor) && major[0] != '0'
    ensures var text := PrintAbsolute(m, schema, host, port, target, major, minor);
            ParsesBack(Run(text, 0, ZERO), m, schema, host, port, target, major, minor, |text|)
  {
    hide *;
    var text := PrintAbsolute(m, schema, host, port, target, major, minor);
    var colon := |m| + 1 + |schema|;
    var hostEnd := colon + 3 + |host|;
    var uri := hostEnd + |port|;
    AbsoluteLayout(m, schema, host, port, target, major, minor);
    LaidOutParses(text, m, schema, host, port, target, major, minor, colon, hostEnd, uri);
  }
}
