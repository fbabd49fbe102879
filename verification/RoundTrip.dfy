/**
 Printing a request line and parsing it gives every part back.
 The line is section 3.1.1 of RFC 7230; the version numbers may have several digits
 (section 3.1 of RFC 2616) and are kept modulo 2^16.
 */
module RoundTrip {
  import opened Common
  import opened RequestLine
  import Bits

  predicate IsMethod(m: Text) {
    m != [] && forall c | c in m :: IsMethodByte(c)
  }

  predicate IsTargetByte(ch: Byte) {
    ch != NUL && ch != CR && ch != LF && ch != ' '
  }

  predicate IsTarget(t: Text) {
    t != [] && t[0] == '/' && forall c | c in t :: IsTargetByte(c)
  }

  predicate IsNumeral(d: Text) {
    d != [] && forall c | c in d :: IsDigit(c)
  }

  function Value(d: Text): nat
    requires forall c | c in d :: IsDigit(c)
  {
    if d == [] then 0 else Value(d[..|d| - 1]) * 10 + DigitValue(d[|d| - 1])
  }

  /** The shortest numeral of n. */
  function Numeral(n: nat): (d: Text)
    ensures IsNumeral(d) && Value(d) == n
    ensures n > 0 ==> d[0] != '0'
  {
    var digit: Byte := (n % 10 + '0' as int) as char;
    if n < 10 then
      assert [digit][..0] == [];
      [digit]
    else
      var front := Numeral(n / 10);
      assert (front + [digit])[..|front|] == front;
      front + [digit]
  }

  const PROTOCOL: Text := " HTTP/"
  const LINE_END: Text := "\r\n"

  function Print(m: Text, target: Text, major: Text, minor: Text): Text {
    m + " " + target + PROTOCOL + major + "." + minor + LINE_END
  }

  /** What the parser records of a printed line, besides the flags, extension and arguments of the target. */
  predicate Recovers(r: Line, m: Text, target: Text, major: Text, minor: Text)
    requires IsNumeral(major) && IsNumeral(minor)
  {
    var uriStart := |m| + 1;
    var uriEnd := uriStart + |target|;
    && r.state == Start && r.verb == MethodCode(m, 0)
    && r.requestStart == 0 && r.methodEnd == |m| - 1
    && r.uriStart == uriStart && r.uriEnd == uriEnd && r.protocol == uriEnd + 1
    && r.requestEnd == uriEnd + |PROTOCOL| + |major| + 1 + |minor|
    && r.schemaStart == r.schemaEnd == r.hostStart == r.hostEnd == r.portEnd == NULL
    && r.major == Value(major) % 0x1_0000 && r.minor == Value(minor) % 0x1_0000
    && r.version == r.major * 1000 + r.minor && !r.spaceInUri
  }

  // ---------- the phases of the run ----------

  lemma {:induction false} OverMethod(text: Text, p: nat, q: nat, r: Line)
    requires p <= q <= |text| && r.state == Method
    requires forall j | p <= j < q :: IsMethodByte(text[j])
    ensures Run(text, p, r) == Run(text, q, r)
    decreases q - p
  {
    hide IsMethodByte, MethodCode;
    if p < q {
      RunStep(text, p, r);
      assert text[p] != ' ' by { SpaceIsNoMethodByte(); }
      OverMethod(text, p + 1, q, r);
    }
  }

  lemma SpaceIsNoMethodByte()
    ensures !IsMethodByte(' ')
  {
  }

  predicate InTarget(s: State) {
    s == AfterSlashInUri || s == CheckUri || s == Uri
  }

  /** The target changes only the fields that describe it. */
  predicate OnlyTarget(r: Line, r': Line) {
    && InTarget(r'.state)
    && r' == r.(state := r'.state, complexUri := r'.complexUri, quotedUri := r'.quotedUri, plusInUri := r'.plusInUri,
                uriExt := r'.uriExt, argsStart := r'.argsStart)
  }

  lemma SlashStep(r: Line, p: nat, ch: Byte)
    requires r.state == AfterSlashInUri && IsTargetByte(ch)
    ensures var v := OnAfterSlashInUri(r, p, ch); v.Advance? && OnlyTarget(r, v.line)
  {
    hide Usual;
    if Usual(ch) {
    } else if ch == '%' {
    } else if ch == '?' {
    } else if ch == '+' {
    } else {
    }
  }

  lemma CheckStep(r: Line, p: nat, ch: Byte)
    requires r.state == CheckUri && IsTargetByte(ch)
    ensures var v := OnCheckUri(r, p, ch); v.Advance? && OnlyTarget(r, v.line)
  {
    hide Usual;
    if Usual(ch) {
    } else if ch == '/' {
    } else if ch == '.' {
    } else if ch == '%' {
    } else if ch == '?' {
    } else if ch == '#' {
    } else {
    }
  }

  lemma UriStep(r: Line, p: nat, ch: Byte)
    requires r.state == Uri && IsTargetByte(ch)
    ensures var v := OnUri(r, p, ch); v.Advance? && OnlyTarget(r, v.line)
  {
    hide Usual;
  }

  lemma TargetStep(text: Text, p: nat, r: Line) returns (r': Line)
    requires p < |text| && InTarget(r.state) && IsTargetByte(text[p])
    ensures Run(text, p, r) == Run(text, p + 1, r') && OnlyTarget(r, r')
  {
    hide Run, IsTargetByte, OnlyTarget, OnAfterSlashInUri, OnCheckUri, OnUri;
    RunStep(text, p, r);
    if r.state == AfterSlashInUri {
      SlashStep(r, p, text[p]);
      r' := OnAfterSlashInUri(r, p, text[p]).line;
    } else if r.state == CheckUri {
      CheckStep(r, p, text[p]);
      r' := OnCheckUri(r, p, text[p]).line;
    } else {
      UriStep(r, p, text[p]);
      r' := OnUri(r, p, text[p]).line;
    }
  }

  lemma {:induction false} OverTarget(text: Text, p: nat, q: nat, r: Line) returns (r': Line)
    requires p <= q <= |text| && InTarget(r.state)
    requires forall j | p <= j < q :: IsTargetByte(text[j])
    ensures Run(text, p, r) == Run(text, q, r') && OnlyTarget(r, r')
    decreases q - p
  {
    hide Run, IsTargetByte;
    r' := r;
    if p < q {
      r' := TargetStep(text, p, r);
      r' := OverTarget(text, p + 1, q, r');
    }
  }

  lemma TargetEnds(text: Text, p: nat, r: Line)
    requires p < |text| && InTarget(r.state) && text[p] == ' '
    ensures Run(text, p, r) == Run(text, p + 1, r.(uriEnd := p, state := if r.state == Uri then Http09 else CheckUriHttp09))
  {
    hide Run;
    RunStep(text, p, r);
    if r.state == AfterSlashInUri {
    } else if r.state == CheckUri {
    } else {
    }
  }

  /** The space and the protocol's name. */
  lemma OverProtocol(text: Text, p: nat, r: Line)
    requires InTarget(r.state) && Lies(text, p, PROTOCOL)
    ensures Run(text, p, r) == Run(text, p + |PROTOCOL|, r.(uriEnd := p, protocol := p + 1, state := FirstMajorDigit))
  {
    hide Run;
    var s := text[p..p + |PROTOCOL|];
    assert text[p] == s[0] && text[p + 1] == s[1] && text[p + 2] == s[2] && text[p + 3] == s[3] && text[p + 4] == s[4] && text[p + 5] == s[5];
    TargetEnds(text, p, r);
    var ended := r.(uriEnd := p, state := if r.state == Uri then Http09 else CheckUriHttp09);
    OverName(text, p + 1, ended);
  }

  lemma OverName(text: Text, p: nat, r: Line)
    requires p + 5 <= |text| && (r.state == CheckUriHttp09 || r.state == Http09)
    requires text[p] == 'H' && text[p + 1] == 'T' && text[p + 2] == 'T' && text[p + 3] == 'P' && text[p + 4] == '/'
    ensures Run(text, p, r) == Run(text, p + 5, r.(protocol := p, state := FirstMajorDigit))
  {
    hide Run;
    var named := r.(protocol := p, state := HttpH);
    RunStep(text, p, r);
    RunStep(text, p + 1, named);
    RunStep(text, p + 2, named.(state := HttpHT));
    RunStep(text, p + 3, named.(state := HttpHTT));
    RunStep(text, p + 4, named.(state := HttpHTTP));
  }

  /** Dropping multiples of 2^16 before or after a digit is added gives the same number. */
  lemma AppendModulo(v: nat, x: nat)
    ensures (v * 10 + x) % 0x1_0000 == (v % 0x1_0000 * 10 + x) % 0x1_0000
  {
    var q := v / 0x1_0000 * 10;
    assert v * 10 + x == v % 0x1_0000 * 10 + x + q * 0x1_0000;
    Bits.ModPeriod(v % 0x1_0000 * 10 + x, 0x1_0000, q);
  }

  /** The digits read so far make up the number, modulo 2^16. */
  lemma AppendValue(text: Text, from: nat, p: nat)
    requires from <= p < |text| && forall j | from <= j <= p :: IsDigit(text[j])
    ensures forall c | c in text[from..p] :: IsDigit(c)
    ensures forall c | c in text[from..p + 1] :: IsDigit(c)
    ensures Value(text[from..p + 1]) % 0x1_0000 == AppendDigit(Value(text[from..p]) % 0x1_0000, text[p])
  {
    var d := text[from..p + 1];
    assert d[..|d| - 1] == text[from..p];
    assert forall k | 0 <= k < |d| :: d[k] == text[from + k];
    assert Value(d) == Value(text[from..p]) * 10 + DigitValue(text[p]);
    AppendModulo(Value(text[from..p]), DigitValue(text[p]));
  }

  lemma {:induction false} OverMajor(text: Text, from: nat, p: nat, q: nat, r: Line)
    requires from < p <= q <= |text| && r.state == MajorDigit
    requires forall j | from <= j < q :: IsDigit(text[j])
    requires r.major == Value(text[from..p]) % 0x1_0000
    ensures Run(text, p, r) == Run(text, q, r.(major := Value(text[from..q]) % 0x1_0000))
    decreases q - p
  {
    hide Run, Value, AppendDigit;
    if p < q {
      AppendValue(text, from, p);
      RunStep(text, p, r);
      OverMajor(text, from, p + 1, q, r.(major := Value(text[from..p + 1]) % 0x1_0000));
    }
  }

  lemma {:induction false} OverMinor(text: Text, from: nat, p: nat, q: nat, r: Line)
    requires from < p <= q <= |text| && r.state == MinorDigit
    requires forall j | from <= j < q :: IsDigit(text[j])
    requires r.minor == Value(text[from..p]) % 0x1_0000
    ensures Run(text, p, r) == Run(text, q, r.(minor := Value(text[from..q]) % 0x1_0000))
    decreases q - p
  {
    hide Run, Value, AppendDigit;
    if p < q {
      AppendValue(text, from, p);
      RunStep(text, p, r);
      OverMinor(text, from, p + 1, q, r.(minor := Value(text[from..p + 1]) % 0x1_0000));
    }
  }

  lemma OneDigit(d: Byte)
    requires IsDigit(d)
    ensures Value([d]) == DigitValue(d) == Value([d]) % 0x1_0000
  {
    assert [d][..0] == [];
  }

  lemma OverMajorNumber(text: Text, p: nat, dot: nat, r: Line)
    requires p < dot < |text| && r.state == FirstMajorDigit
    requires forall j | p <= j < dot :: IsDigit(text[j])
    requires text[p] != '0' && text[dot] == '.'
    ensures Run(text, p, r) == Run(text, dot + 1, r.(major := Value(text[p..dot]) % 0x1_0000, state := FirstMinorDigit))
  {
    hide Run, Value, AppendDigit;
    OneDigit(text[p]);
    assert text[p..p + 1] == [text[p]];
    RunStep(text, p, r);
    OverMajor(text, p, p + 1, dot, r.(major := DigitValue(text[p]), state := MajorDigit));
    RunStep(text, dot, r.(major := Value(text[p..dot]) % 0x1_0000, state := MajorDigit));
  }

  lemma OverMinorNumber(text: Text, p: nat, end: nat, r: Line)
    requires p < end < |text| && r.state == FirstMinorDigit
    requires forall j | p <= j < end :: IsDigit(text[j])
    requires text[end] == CR
    ensures Run(text, p, r) == Run(text, end + 1, r.(minor := Value(text[p..end]) % 0x1_0000, state := AlmostDone))
  {
    hide Run, Value, AppendDigit;
    OneDigit(text[p]);
    assert text[p..p + 1] == [text[p]];
    RunStep(text, p, r);
    OverMinor(text, p, p + 1, end, r.(minor := DigitValue(text[p]), state := MinorDigit));
    RunStep(text, end, r.(minor := Value(text[p..end]) % 0x1_0000, state := MinorDigit));
  }

  /** The line feed after the carriage return. */
  lemma AtLineEnd(text: Text, r: Line)
    requires |text| >= 2 && text[|text| - 1] == LF && r.state == AlmostDone
    ensures Run(text, |text| - 1, r) == Conclude(r.(requestEnd := |text| - 2), |text| - 1)
  {
    hide Run, Conclude;
    RunStep(text, |text| - 1, r);
  }

  /** The request after its method and the space. */
  function AfterMethod(m: Text): Line {
    ZERO.(requestStart := 0, methodEnd := |m| - 1, verb := MethodCode(m, 0), state := SpacesBeforeUri)
  }

  /** The method and the space. */
  lemma OverStart(text: Text, m: Text)
    requires IsMethod(m) && |m| < |text| && Lies(text, 0, m) && text[|m|] == ' '
    ensures Run(text, 0, ZERO) == Run(text, |m| + 1, AfterMethod(m))
  {
    hide Run, MethodCode;
    var started := ZERO.(requestStart := 0, state := Method);
    assert forall j | 0 <= j < |m| :: text[j] == m[j];
    assert text[0] == m[0] && m[0] in m;
    assert Slice(text, started.requestStart, |m|) == m;
    RunStep(text, 0, ZERO);
    OverMethod(text, 1, |m|, started);
    RunStep(text, |m|, started);
    assert Dispatch(text, |m|, started) == Advance(AfterMethod(m));
  }

  /** The parts of the line lie one after another. */
  predicate Lies(text: Text, from: nat, part: Text) {
    from + |part| <= |text| && text[from..from + |part|] == part
  }

  /** The target, the protocol and both numbers lie one after another up to the end of the line. */
  predicate RestLies(text: Text, uri: nat, target: Text, major: Text, minor: Text) {
    var version := uri + |target| + |PROTOCOL|;
    && |text| == version + |major| + 1 + |minor| + 2
    && Lies(text, uri, target) && Lies(text, uri + |target|, PROTOCOL) && Lies(text, version, major)
    && text[version + |major|] == '.' && Lies(text, version + |major| + 1, minor)
    && text[|text| - 2] == CR && text[|text| - 1] == LF
  }

  /** Where the parts of a printed line lie. */
  lemma Layout(m: Text, target: Text, major: Text, minor: Text)
    ensures var text := Print(m, target, major, minor);
            Lies(text, 0, m) && |text| > |m| && text[|m|] == ' ' && RestLies(text, |m| + 1, target, major, minor)
  {
  }

  /** A part with only bytes of one kind. */
  lemma AllDigits(text: Text, from: nat, d: Text)
    requires Lies(text, from, d) && IsNumeral(d)
    ensures forall j | from <= j < from + |d| :: IsDigit(text[j])
    ensures text[from] == d[0]
  {
    var s := text[from..from + |d|];
    forall j | from <= j < from + |d| ensures IsDigit(text[j]) {
      assert s[j - from] in d;
    }
    assert s[0] == text[from];
  }

  lemma AllTarget(text: Text, from: nat, t: Text)
    requires Lies(text, from, t) && IsTarget(t)
    ensures forall j | from <= j < from + |t| :: IsTargetByte(text[j])
    ensures text[from] == '/'
  {
    var s := text[from..from + |t|];
    forall j | from <= j < from + |t| ensures IsTargetByte(text[j]) {
      assert s[j - from] in t;
    }
    assert s[0] == text[from];
  }

  /** Both numbers and the line end. */
  lemma OverVersion(text: Text, p: nat, dot: nat, end: nat, r: Line)
    requires p < dot && dot + 1 < end && end + 2 == |text| && r.state == FirstMajorDigit
    requires forall j | p <= j < dot :: IsDigit(text[j])
    requires forall j | dot < j < end :: IsDigit(text[j])
    requires text[p] != '0' && text[dot] == '.' && text[end] == CR && text[end + 1] == LF
    ensures Run(text, p, r) ==
            Conclude(r.(major := Value(text[p..dot]) % 0x1_0000, minor := Value(text[dot + 1..end]) % 0x1_0000, requestEnd := end, state := AlmostDone),
                     end + 1)
  {
    hide *;
    OverMajorNumber(text, p, dot, r);
    var r' := r.(major := Value(text[p..dot]) % 0x1_0000, state := FirstMinorDigit);
    OverMinorNumber(text, dot + 1, end, r');
    AtLineEnd(text, r'.(minor := Value(text[dot + 1..end]) % 0x1_0000, state := AlmostDone));
  }

  /** From the target's slash to the end of the line. */
  lemma OverRest(text: Text, uri: nat, target: Text, major: Text, minor: Text, r: Line) returns (r': Line)
    requires IsTarget(target) && IsNumeral(major) && IsNumeral(minor) && major[0] != '0' && r.state == AfterSlashInUri
    requires RestLies(text, uri, target, major, minor)
    ensures OnlyTarget(r, r')
    ensures var end := uri + |target|;
            Run(text, uri + 1, r) ==
            Conclude(r'.(uriEnd := end, protocol := end + 1, major := Value(major) % 0x1_0000, minor := Value(minor) % 0x1_0000,
                         requestEnd := |text| - 2, state := AlmostDone), |text| - 1)
  {
    hide Run, Value, IsTarget;
    var end := uri + |target|;
    var version := end + |PROTOCOL|;
    var dot := version + |major|;
    AllTarget(text, uri, target);
    TargetNotEmpty(target);
    r' := OverTarget(text, uri + 1, end, r);
    OverProtocol(text, end, r');
    AllDigits(text, version, major);
    AllDigits(text, dot + 1, minor);
    OverVersion(text, version, dot, |text| - 2, r'.(uriEnd := end, protocol := end + 1, state := FirstMajorDigit));
  }

  /** The round trip, for numerals of any length. */
  lemma PrintThenParse(m: Text, target: Text, major: Text, minor: Text)
    requires IsMethod(m) && IsTarget(target) && IsNumeral(major) && IsNumeral(minor) && major[0] != '0'
    ensures match Run(Print(m, target, major, minor), 0, ZERO)
            case Complete(code, r, pos) =>
              && Recovers(r, m, target, major, minor) && pos == |Print(m, target, major, minor)|
              && code == if r.version == 9 && r.verb != HTTP_GET then INVALID_09_METHOD else OS_OK
            case _ => false
  {
    var text, uri := Print(m, target, major, minor), |m| + 1;
    Layout(m, target, major, minor);
    TargetNotEmpty(target);
    AllTarget(text, uri, target);
    hide Run, Print, Value, MethodCode, IsTarget, IsMethod, IsNumeral, Lies;
    OverStart(text, m);
    RunStep(text, uri, AfterMethod(m));
    var _ := OverRest(text, uri, target, major, minor, AfterMethod(m).(uriStart := uri, state := AfterSlashInUri));
  }

  lemma TargetNotEmpty(t: Text)
    requires IsTarget(t)
    ensures |t| > 0
  {
  }

  /** For numbers that fit the version fields the line is accepted and the numbers come back. */
  lemma NumbersRoundTrip(m: Text, target: Text, major: nat, minor: nat)
    requires IsMethod(m) && IsTarget(target) && 1 <= major < 0x1_0000 && minor < 0x1_0000
    ensures match Run(Print(m, target, Numeral(major), Numeral(minor)), 0, ZERO)
            case Complete(code, r, _) =>
              && code == OS_OK && r.major == major && r.minor == minor
              && Recovers(r, m, target, Numeral(major), Numeral(minor))
            case _ => false
  {
    hide Run, Print, Value, MethodCode;
    PrintThenParse(m, target, Numeral(major), Numeral(minor));
  }

  /** A printed line determines its parts. */
  lemma PrintIsInjective(m: Text, target: Text, major: nat, minor: nat, m': Text, target': Text, major': nat, minor': nat)
    requires IsMethod(m) && IsTarget(target) && 1 <= major < 0x1_0000 && minor < 0x1_0000
    requires IsMethod(m') && IsTarget(target') && 1 <= major' < 0x1_0000 && minor' < 0x1_0000
    requires Print(m, target, Numeral(major), Numeral(minor)) == Print(m', target', Numeral(major'), Numeral(minor'))
    ensures m == m' && target == target' && major == major' && minor == minor'
  {
    NumbersRoundTrip(m, target, major, minor);
    NumbersRoundTrip(m', target', major', minor');
    Layout(m, target, Numeral(major), Numeral(minor));
    Layout(m', target', Numeral(major'), Numeral(minor'));
    hide Run, Print, Numeral, MethodCode;
  }

  // ---------- the method table ----------

  /** The code of the method with this name; an unknown name keeps the code the request had. */
  function CodeOf(m: Text, verb: nat): nat {
    if m == "GET" then HTTP_GET else if m == "PUT" then HTTP_PUT
    else if m == "HEAD" then HTTP_HEAD else if m == "POST" then HTTP_POST else if m == "COPY" then HTTP_COPY
    else if m == "MOVE" then HTTP_MOVE else if m == "LOCK" then HTTP_LOCK
    else if m == "MKCOL" then HTTP_MKCOL else if m == "PATCH" then HTTP_PATCH else if m == "TRACE" then HTTP_TRACE
    else if m == "DELETE" then HTTP_DELETE else if m == "UNLOCK" then HTTP_UNLOCK
    else if m == "OPTIONS" then HTTP_OPTIONS
    else if m == "PROPFIND" then HTTP_PROPFIND
    else if m == "PROPPATCH" then HTTP_PROPPATCH
    else verb
  }

  /** The byte comparisons, by length and second byte, find the method's name and no other. */
  lemma MethodCodeByName(m: Text, verb: nat)
    ensures MethodCode(m, verb) == CodeOf(m, verb)
  {
    if |m| == 3 {
      assert m == [m[0], m[1], m[2]];
    } else if |m| == 4 {
      assert m == [m[0], m[1], m[2], m[3]];
    }
  }

  /** The methods, in the order of their codes. */
  const METHODS: seq<Text> := [
    "GET", "HEAD", "POST", "PUT", "DELETE", "MKCOL", "COPY", "MOVE", "OPTIONS", "PROPFIND", "PROPPATCH", "LOCK", "UNLOCK", "PATCH", "TRACE"]

  /** Each method has one bit of its own, from the second bit on; no other name has a code. */
  lemma MethodCodeIsBit(m: Text)
    ensures forall i | 0 <= i < |METHODS| && m == METHODS[i] :: MethodCode(m, 0) == Bits.Pow2(i + 1)
    ensures m !in METHODS ==> MethodCode(m, 0) == 0
  {
    MethodCodeByName(m, 0);
    hide MethodCode;
    assert Bits.Pow2(4) == 16 && Bits.Pow2(8) == 0x100 && Bits.Pow2(12) == 0x1000 by {
      Bits.Pow2Add(4, 4);
      Bits.Pow2Add(8, 4);
    }
    assert "GET" == METHODS[0] && "HEAD" == METHODS[1] && "POST" == METHODS[2] && "PUT" == METHODS[3] && "DELETE" == METHODS[4]
      && "MKCOL" == METHODS[5] && "COPY" == METHODS[6] && "MOVE" == METHODS[7] && "OPTIONS" == METHODS[8] && "PROPFIND" == METHODS[9]
      && "PROPPATCH" == METHODS[10] && "LOCK" == METHODS[11] && "UNLOCK" == METHODS[12] && "PATCH" == METHODS[13] && "TRACE" == METHODS[14];
  }

  /** Two methods with the same known code have the same name. */
  lemma MethodCodeIsInjective(m: Text, m': Text)
    requires MethodCode(m, 0) == MethodCode(m', 0) != 0
    ensures m == m'
  {
    MethodCodeByName(m, 0);
    MethodCodeByName(m', 0);
    hide MethodCode;
  }
}
