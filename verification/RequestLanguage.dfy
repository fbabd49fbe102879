/**
 The exact language of the parser: which texts are complete request lines.

 `RequestGrammar` shows that every completed line has the form; here a text of the form is
 shown to be completed, whatever its empty lines, spaces, line end, target and version are.
 The proof goes backwards from the line end: each lemma says that a run completes from a
 position and state, given what lies ahead.
 */
module RequestLanguage {
  import opened Common
  import opened RequestLine
  import opened RequestGrammar
  import RequestSlices

  /** The run completes at the end of the text. */
  predicate Completes(text: Text, p: nat, r: Line)
    requires p <= |text|
  {
    var result := Run(text, p, r);
    result.Complete? && result.pos == |text|
  }

  /** One byte taken, the rest as before. */
  lemma After(text: Text, p: nat, r: Line, r': Line)
    requires p < |text| && Dispatch(text, p, r) == Advance(r') && Completes(text, p + 1, r')
    ensures Completes(text, p, r)
  {
    hide Dispatch, Run;
    RunStep(text, p, r);
  }

  /** One byte sent back to the URI. */
  lemma Back(text: Text, p: nat, r: Line, r': Line)
    requires p < |text| && Dispatch(text, p, r) == Redo(r') && Completes(text, p, r')
    ensures Completes(text, p, r)
  {
    hide Dispatch, Run;
    RunStep(text, p, r);
  }

  lemma AtFinish(text: Text, p: nat, r: Line)
    requires p + 1 == |text| && Dispatch(text, p, r).Finish?
    ensures Completes(text, p, r)
  {
    hide Dispatch, Run;
    RunStep(text, p, r);
  }

  // ---------- the line end ----------

  /** A line feed, or a carriage return and a line feed, end the text. */
  predicate AtLineEnd(text: Text, p: int) {
    || (0 <= p && p + 1 == |text| && text[p] == LF)
    || (0 <= p && p + 2 == |text| && text[p] == CR && text[p + 1] == LF)
  }

  predicate InUriState(s: State) {
    s == AfterSlashInUri || s == CheckUri || s == Uri
  }

  predicate AfterUriState(s: State) {
    s == HostHttp09 || s == CheckUriHttp09 || s == Http09
  }

  lemma LineFeedCompletes(text: Text, p: nat, r: Line)
    requires p + 1 == |text| && text[p] == LF && r.state == AlmostDone
    ensures Completes(text, p, r)
  {
    AtFinish(text, p, r);
  }

  lemma UriEndCompletes(text: Text, p: nat, r: Line)
    requires AtLineEnd(text, p) && InUriState(r.state)
    ensures Completes(text, p, r)
  {
    hide Completes;
    assert !Usual(CR) && !Usual(LF);
    var v := EndUri(r, p, text[p], if r.state == Uri then Http09 else CheckUriHttp09);
    assert Dispatch(text, p, r) == v;
    if text[p] == LF {
      AtFinish(text, p, r);
    } else {
      LineFeedCompletes(text, p + 1, v.line);
      After(text, p, r, v.line);
    }
  }

  lemma SpacesEndCompletes(text: Text, p: nat, r: Line)
    requires AtLineEnd(text, p) && AfterUriState(r.state)
    ensures Completes(text, p, r)
  {
    hide Completes;
    var v := OnAfterUri(r, p, text[p]);
    assert Dispatch(text, p, r) == v;
    if text[p] == LF {
      AtFinish(text, p, r);
    } else {
      LineFeedCompletes(text, p + 1, v.line);
      After(text, p, r, v.line);
    }
  }

  lemma VersionEndCompletes(text: Text, p: nat, r: Line)
    requires AtLineEnd(text, p) && (r.state == MinorDigit || r.state == SpacesAfterDigit)
    ensures Completes(text, p, r)
  {
    hide Completes;
    if text[p] == LF {
      AtFinish(text, p, r);
    } else {
      var r' := r.(state := AlmostDone);
      LineFeedCompletes(text, p + 1, r');
      After(text, p, r, r');
    }
  }

  // ---------- the version ----------

  /** Where the parts after the target lie; without a version only `end` counts. */
  datatype Tail = Tail(protocol: int, dot: int, minorEnd: int, end: int)

  ghost predicate VersionAt(text: Text, t: Tail) {
    && NameSoFar(text, t.protocol, t.protocol + 5)
    && Digits(text, t.protocol + 5, t.dot) && t.protocol + 5 < t.dot < |text| && text[t.protocol + 5] != '0' && text[t.dot] == '.'
    && Digits(text, t.dot + 1, t.minorEnd) && t.dot + 1 < t.minorEnd
    && Spaces(text, t.minorEnd, t.end) && AtLineEnd(text, t.end)
  }

  lemma {:induction false} LastSpacesComplete(text: Text, p: nat, end: nat, r: Line)
    requires p <= end && Spaces(text, p, end) && AtLineEnd(text, end)
    requires r.state == SpacesAfterDigit || r.state == MinorDigit
    ensures Completes(text, p, r)
    decreases end - p
  {
    hide Completes;
    if p == end {
      VersionEndCompletes(text, p, r);
    } else {
      var r' := r.(state := SpacesAfterDigit);
      LastSpacesComplete(text, p + 1, end, r');
      After(text, p, r, r');
    }
  }

  lemma {:induction false} MinorDigitsComplete(text: Text, p: nat, minorEnd: nat, end: nat, r: Line)
    requires p <= minorEnd && Digits(text, p, minorEnd) && Spaces(text, minorEnd, end) && AtLineEnd(text, end) && r.state == MinorDigit
    ensures Completes(text, p, r)
    decreases minorEnd - p
  {
    hide Completes, AppendDigit;
    if p == minorEnd {
      LastSpacesComplete(text, p, end, r);
    } else {
      var r' := r.(minor := AppendDigit(r.minor, text[p]));
      MinorDigitsComplete(text, p + 1, minorEnd, end, r');
      After(text, p, r, r');
    }
  }

  lemma {:induction false} MajorDigitsComplete(text: Text, p: nat, t: Tail, r: Line)
    requires VersionAt(text, t) && t.protocol + 5 < p <= t.dot && r.state == MajorDigit
    ensures Completes(text, p, r)
    decreases t.dot - p
  {
    hide Completes, AppendDigit, DigitValue;
    if p == t.dot {
      var r', q := r.(state := FirstMinorDigit), p + 1;
      var r'' := r'.(minor := DigitValue(text[q]), state := MinorDigit);
      MinorDigitsComplete(text, q + 1, t.minorEnd, t.end, r'');
      After(text, q, r', r'');
      After(text, p, r, r');
    } else {
      var r' := r.(major := AppendDigit(r.major, text[p]));
      MajorDigitsComplete(text, p + 1, t, r');
      After(text, p, r, r');
    }
  }

  /** The name's five bytes, each with its own state. */
  lemma NameCompletes(text: Text, p: nat, r: Line)
    requires NameSoFar(text, p, p + 5) && AfterUriState(r.state)
    requires p + 5 <= |text| && Completes(text, p + 5, r.(protocol := p, state := FirstMajorDigit))
    ensures Completes(text, p, r)
  {
    hide Completes;
    NameBytes(text, p);
    var h := r.(protocol := p, state := HttpH);
    After(text, p + 4, h.(state := HttpHTTP), h.(state := FirstMajorDigit));
    After(text, p + 3, h.(state := HttpHTT), h.(state := HttpHTTP));
    After(text, p + 2, h.(state := HttpHT), h.(state := HttpHTT));
    After(text, p + 1, h, h.(state := HttpHT));
    After(text, p, r, h);
  }

  lemma NameBytes(text: Text, p: nat)
    requires NameSoFar(text, p, p + 5)
    ensures text[p] == 'H' && text[p + 1] == 'T' && text[p + 2] == 'T' && text[p + 3] == 'P' && text[p + 4] == '/'
  {
    var s := text[p..p + 5];
    assert text[p] == s[0] && text[p + 1] == s[1] && text[p + 2] == s[2] && text[p + 3] == s[3] && text[p + 4] == s[4];
  }

  /** From the 'H' on. */
  lemma ProtocolCompletes(text: Text, t: Tail, r: Line)
    requires VersionAt(text, t) && AfterUriState(r.state)
    ensures 0 <= t.protocol <= |text| && Completes(text, t.protocol, r)
  {
    hide Completes, DigitValue;
    var p := t.protocol;
    assert 0 <= p;
    hide NameSoFar;
    var first := r.(protocol := p, state := FirstMajorDigit);
    var major := first.(major := DigitValue(text[p + 5]), state := MajorDigit);
    NameBytes(text, p);
    MajorDigitsComplete(text, p + 6, t, major);
    After(text, p + 5, first, major);
    NameCompletes(text, p, r);
  }

  /** Spaces, and then the version or the line end. */
  ghost predicate TailFrom(text: Text, p: int, t: Tail) {
    0 <= p && if t.protocol == NULL then Spaces(text, p, t.end) && AtLineEnd(text, t.end)
              else Spaces(text, p, t.protocol) && VersionAt(text, t)
  }

  lemma {:induction false} GapCompletes(text: Text, p: nat, t: Tail, r: Line)
    requires TailFrom(text, p, t) && AfterUriState(r.state)
    ensures p <= |text| && Completes(text, p, r)
    decreases |text| - p
  {
    hide Completes, VersionAt;
    if t.protocol == NULL && p == t.end {
      SpacesEndCompletes(text, p, r);
    } else if p == t.protocol {
      ProtocolCompletes(text, t, r);
    } else {
      GapCompletes(text, p + 1, t, r);
      assert text[p] == ' ';
      After(text, p, r, r);
    }
  }

  lemma TailNext(text: Text, p: nat, t: Tail)
    requires p < |text| && TailFrom(text, p, t) && text[p] == ' '
    ensures TailFrom(text, p + 1, t)
  {
    if t.protocol != NULL {
      NameBytes(text, t.protocol);
    }
  }

  // ---------- the URI ----------

  /** A URI's bytes: no line end or NUL, no space at the end, and none before an 'H', where the protocol would begin. */
  ghost predicate UriText(text: Text, from: int, end: int) {
    && 0 <= from < end <= |text| && text[end - 1] != ' '
    && (forall j | from <= j < end :: text[j] != CR && text[j] != LF && text[j] != NUL)
    && forall j | from < j < end && text[j] == 'H' :: text[j - 1] != ' '
  }

  /** A URI that begins at `from`, and what follows it. */
  ghost predicate UriAt(text: Text, from: int, end: int, t: Tail) {
    UriText(text, from, end) && TailFrom(text, end, t) && t.protocol != end
  }

  lemma UriByte(text: Text, p: nat, r: Line) returns (r': Line)
    requires p < |text| && InUriState(r.state) && RoundTrip.IsTargetByte(text[p])
    ensures Dispatch(text, p, r) == Advance(r') && InUriState(r'.state)
  {
    hide RoundTrip.IsTargetByte, OnAfterSlashInUri, OnCheckUri, OnUri;
    if r.state == AfterSlashInUri {
      RoundTrip.SlashStep(r, p, text[p]);
    } else if r.state == CheckUri {
      RoundTrip.CheckStep(r, p, text[p]);
    } else {
      RoundTrip.UriStep(r, p, text[p]);
    }
    r' := Dispatch(text, p, r).line;
  }

  lemma UriSpace(text: Text, p: nat, r: Line) returns (r': Line)
    requires p < |text| && InUriState(r.state) && text[p] == ' '
    ensures Dispatch(text, p, r) == Advance(r') && MayRedo(r'.state)
  {
    r' := Dispatch(text, p, r).line;
  }

  /** Spaces inside the URI, and the byte after them. */
  lemma SpaceInUri(text: Text, p: nat, r: Line) returns (r': Line)
    requires p < |text| && MayRedo(r.state) && text[p] != CR && text[p] != LF && text[p] != 'H'
    ensures text[p] == ' ' ==> Dispatch(text, p, r) == Advance(r') && r' == r
    ensures text[p] != ' ' ==> Dispatch(text, p, r) == Redo(r') && InUriState(r'.state)
  {
    r' := Dispatch(text, p, r).line;
  }

  lemma {:induction false} UriCompletes(text: Text, p: nat, from: int, end: nat, t: Tail, r: Line)
    requires UriAt(text, from, end, t) && from < p <= end
    requires InUriState(r.state) || (MayRedo(r.state) && text[p - 1] == ' ')
    ensures Completes(text, p, r)
    decreases end - p, if MayRedo(r.state) then 1 else 0
  {
    hide Completes, Dispatch, TailFrom;
    if p == end {
      UriEnds(text, end, t, r);
    } else if InUriState(r.state) {
      var r' := r;
      if text[p] == ' ' {
        r' := UriSpace(text, p, r);
      } else {
        r' := UriByte(text, p, r);
      }
      UriCompletes(text, p + 1, from, end, t, r');
      After(text, p, r, r');
    } else {
      var r' := SpaceInUri(text, p, r);
      if text[p] == ' ' {
        UriCompletes(text, p + 1, from, end, t, r');
        After(text, p, r, r');
      } else {
        UriCompletes(text, p, from, end, t, r');
        Back(text, p, r, r');
      }
    }
  }

  /** The URI ends with the line, or with a space. */
  lemma UriEnds(text: Text, end: nat, t: Tail, r: Line)
    requires TailFrom(text, end, t) && t.protocol != end && InUriState(r.state)
    ensures end <= |text| && Completes(text, end, r)
  {
    hide Completes, Dispatch, VersionAt;
    if t.protocol == NULL && t.end == end {
      UriEndCompletes(text, end, r);
    } else {
      VersionInText(text, end, t);
      TailNext(text, end, t);
      var r' := UriSpace(text, end, r);
      GapCompletes(text, end + 1, t, r');
      After(text, end, r, r');
    }
  }

  lemma VersionInText(text: Text, p: nat, t: Tail)
    requires TailFrom(text, p, t) && t.protocol != p && (t.protocol == NULL ==> t.end != p)
    ensures p < |text| && text[p] == ' '
  {
  }

  // ---------- the authority ----------

  /** What follows the authority at `p`: a space and the tail, or a path. */
  ghost predicate PathAt(text: Text, p: int, end: int, t: Tail) {
    0 <= p < |text| && if text[p] == ' ' then TailFrom(text, p, t) else text[p] == '/' && UriAt(text, p, end, t)
  }

  lemma PathCompletes(text: Text, p: nat, end: int, t: Tail, r: Line)
    requires PathAt(text, p, end, t) && r.state == if text[p] == ' ' then HostHttp09 else AfterSlashInUri
    ensures Completes(text, p + 1, r)
  {
    hide Completes, TailFrom;
    if text[p] == ' ' {
      TailNext(text, p, t);
      GapCompletes(text, p + 1, t, r);
    } else {
      UriCompletes(text, p + 1, p, end, t, r);
    }
  }

  lemma {:induction false} PortCompletes(text: Text, p: nat, slash: nat, end: int, t: Tail, r: Line)
    requires p <= slash && Digits(text, p, slash) && PathAt(text, slash, end, t) && r.state == Port
    ensures Completes(text, p, r)
    decreases slash - p
  {
    hide Completes, PathAt;
    assert slash < |text| && (text[slash] == ' ' || text[slash] == '/') by {
      PathFirst(text, slash, end, t);
    }
    var r' := OnPort(r, p, text[p]).line;
    if p == slash {
      PathCompletes(text, p, end, t, r');
    } else {
      PortCompletes(text, p + 1, slash, end, t, r');
    }
    After(text, p, r, r');
  }

  lemma PathFirst(text: Text, p: int, end: int, t: Tail)
    requires PathAt(text, p, end, t)
    ensures 0 <= p < |text| && (text[p] == ' ' || text[p] == '/')
  {
  }

  /** The host ends at `hostEnd`, the authority at `slash`. */
  ghost predicate PortAt(text: Text, hostEnd: int, slash: int, end: int, t: Tail) {
    && PathAt(text, slash, end, t)
    && if hostEnd == slash then true else 0 <= hostEnd < slash && text[hostEnd] == ':' && Digits(text, hostEnd + 1, slash)
  }

  lemma HostEndCompletes(text: Text, p: nat, slash: nat, end: int, t: Tail, r: Line) returns (r': Line)
    requires PortAt(text, p, slash, end, t)
    ensures p < |text| && !IsHostByte(text[p]) && OnHostEnd(r, p, text[p]) == Advance(r') && Completes(text, p + 1, r')
  {
    hide Completes, PathAt;
    PathFirst(text, slash, end, t);
    r' := OnHostEnd(r, p, text[p]).line;
    if p == slash {
      PathCompletes(text, p, end, t, r');
    } else {
      PortCompletes(text, p + 1, slash, end, t, r');
    }
  }

  lemma {:induction false} HostBytesComplete(text: Text, p: nat, hostEnd: nat, slash: nat, end: int, t: Tail, r: Line)
    requires p <= hostEnd < |text| && (forall j | p <= j < hostEnd :: IsHostByte(text[j])) && PortAt(text, hostEnd, slash, end, t) && r.state == Host
    ensures Completes(text, p, r)
    decreases hostEnd - p
  {
    hide Completes, PortAt, IsHostByte, OnHostEnd;
    if p == hostEnd {
      var r' := HostEndCompletes(text, p, slash, end, t, r);
      After(text, p, r, r');
    } else {
      HostBytesComplete(text, p + 1, hostEnd, slash, end, t, r);
      After(text, p, r, r);
    }
  }

  lemma {:induction false} LiteralCompletes(text: Text, p: nat, hostEnd: nat, slash: nat, end: int, t: Tail, r: Line)
    requires p < hostEnd < |text| && (forall j | p <= j < hostEnd - 1 :: IsLiteralByte(text[j])) && text[hostEnd - 1] == ']'
    requires PortAt(text, hostEnd, slash, end, t) && r.state == HostIpLiteral
    ensures Completes(text, p, r)
    decreases hostEnd - p
  {
    hide Completes, PortAt, OnHostEnd, IsHostByte;
    if p == hostEnd - 1 {
      assert !IsLiteralByte(']');
      var ended := r.(state := HostEnd);
      var r' := HostEndCompletes(text, hostEnd, slash, end, t, ended);
      After(text, hostEnd, ended, r');
      After(text, p, r, ended);
    } else {
      LiteralCompletes(text, p + 1, hostEnd, slash, end, t, r);
      hide IsLiteralByte;
      After(text, p, r, r);
    }
  }

  lemma HostCompletes(text: Text, p: nat, hostEnd: nat, slash: nat, end: int, t: Tail, r: Line)
    requires p <= hostEnd < |text| && RequestSlices.HostName(text, p, hostEnd) && PortAt(text, hostEnd, slash, end, t) && r.state == HostStart
    ensures Completes(text, p, r)
  {
    hide Completes, PortAt, OnHostEnd;
    if RequestSlices.Literal(text, p, hostEnd) {
      var r' := r.(hostStart := p, state := HostIpLiteral);
      LiteralCompletes(text, p + 1, hostEnd, slash, end, t, r');
      After(text, p, r, r');
    } else {
      var named := r.(hostStart := p, state := Host);
      if p == hostEnd {
        var r' := HostEndCompletes(text, p, slash, end, t, named);
        assert text[p] != '[' by { PortFirst(text, p, slash, end, t); }
        After(text, p, r, r');
      } else {
        HostBytesComplete(text, p + 1, hostEnd, slash, end, t, named);
        After(text, p, r, named);
      }
    }
  }

  lemma PortFirst(text: Text, p: int, slash: int, end: int, t: Tail)
    requires PortAt(text, p, slash, end, t)
    ensures 0 <= p < |text| && (text[p] == ' ' || text[p] == '/' || text[p] == ':')
  {
  }

  /** The letters of the schema, the colon and the slashes. */
  lemma {:induction false} SchemaCompletes(text: Text, p: nat, colon: nat, hostEnd: nat, slash: nat, end: int,
                                           t: Tail, r: Line)
    requires p <= colon && colon + 3 <= hostEnd < |text| && Letters(text, p, colon) && text[colon] == ':' && text[colon + 1] == '/' && text[colon + 2] == '/'
    requires RequestSlices.HostName(text, colon + 3, hostEnd) && PortAt(text, hostEnd, slash, end, t) && r.state == Schema
    ensures Completes(text, p, r)
    decreases colon - p
  {
    hide Completes, PortAt, RequestSlices.HostName;
    if p == colon {
      var r' := r.(schemaEnd := p, state := SchemaSlash);
      HostCompletes(text, p + 3, hostEnd, slash, end, t, r'.(state := HostStart));
      After(text, p + 2, r'.(state := SchemaSlashSlash), r'.(state := HostStart));
      After(text, p + 1, r', r'.(state := SchemaSlashSlash));
      After(text, p, r, r');
    } else {
      SchemaCompletes(text, p + 1, colon, hostEnd, slash, end, t, r);
      hide IsLetter;
      After(text, p, r, r);
    }
  }

  // ---------- the method ----------

  /** At the first byte after the method's spaces lies a path, or a schema with its colon and an authority. */
  ghost predicate TargetAt(text: Text, first: int, colon: int, hostEnd: int, slash: int, end: int, t: Tail) {
    if colon == NULL then 0 <= first < |text| && text[first] == '/' && UriAt(text, first, end, t)
    else
      && 0 <= first < colon && colon + 3 <= hostEnd < |text| && Letters(text, first, colon)
      && text[colon] == ':' && text[colon + 1] == '/' && text[colon + 2] == '/'
      && RequestSlices.HostName(text, colon + 3, hostEnd) && 0 <= slash && PortAt(text, hostEnd, slash, end, t)
  }

  lemma {:induction false} TargetCompletes(text: Text, p: nat, first: nat, colon: int, hostEnd: int,
                                           slash: int, end: int, t: Tail, r: Line)
    requires p <= first && Spaces(text, p, first) && TargetAt(text, first, colon, hostEnd, slash, end, t) && r.state == SpacesBeforeUri
    ensures Completes(text, p, r)
    decreases first - p
  {
    hide Completes, UriAt, PortAt, RequestSlices.HostName;
    var r' := OnSpacesBeforeUri(r, p, text[p]).line;
    if p < first {
      TargetCompletes(text, p + 1, first, colon, hostEnd, slash, end, t, r);
    } else if colon == NULL {
      UriNotEmpty(text, p, end, t);
      UriCompletes(text, p + 1, p, end, t, r');
    } else {
      SchemaCompletes(text, p + 1, colon, hostEnd, slash, end, t, r');
    }
    After(text, p, r, r');
  }

  lemma UriNotEmpty(text: Text, from: int, end: int, t: Tail)
    requires UriAt(text, from, end, t)
    ensures 0 <= from < end <= |text|
  {
  }

  lemma {:induction false} MethodCompletes(text: Text, p: nat, space: nat, first: nat, colon: int,
                                           hostEnd: int, slash: int, end: int, t: Tail, r: Line)
    requires p <= space < first <= |text| && RequestSlices.Token(text, p, space) && Spaces(text, space, first)
    requires TargetAt(text, first, colon, hostEnd, slash, end, t) && r.state == Method
    ensures Completes(text, p, r)
    decreases space - p
  {
    hide Completes, TargetAt, IsMethodByte, MethodCode;
    if p == space {
      var r' := OnMethod(text, r, p, text[p]).line;
      TargetCompletes(text, p + 1, first, colon, hostEnd, slash, end, t, r');
      After(text, p, r, r');
    } else {
      assert text[p] != ' ' by { RoundTrip.SpaceIsNoMethodByte(); }
      MethodCompletes(text, p + 1, space, first, colon, hostEnd, slash, end, t, r);
      After(text, p, r, r);
    }
  }

  /** Empty lines, and the first byte of the method. */
  lemma {:induction false} StartCompletes(text: Text, p: nat, start: nat, space: nat, first: nat, colon: int,
                                          hostEnd: int, slash: int, end: int, t: Tail, r: Line)
    requires p <= start < space < first <= |text| && LineEnds(text, start) && RequestSlices.Token(text, start, space) && Spaces(text, space, first)
    requires TargetAt(text, first, colon, hostEnd, slash, end, t) && r.state == Start
    ensures Completes(text, p, r)
    decreases start - p
  {
    hide Completes, TargetAt;
    var r' := OnStart(r, p, text[p]).line;
    if p == start {
      MethodCompletes(text, p + 1, space, first, colon, hostEnd, slash, end, t, r');
    } else {
      StartCompletes(text, p + 1, start, space, first, colon, hostEnd, slash, end, t, r');
    }
    After(text, p, r, r');
  }

  // ---------- the language ----------

  /** The whole text is one request line with the fields r. */
  ghost predicate Form(text: Text, r: Line) {
    CompleteLine(text, |text|, r) && UriText(text, r.uriStart, r.uriEnd)
  }

  lemma VersionOf(text: Text, protocol: int, dot: int, minorEnd: int, end: int, major: nat, minor: nat)
    requires Major(text, protocol, dot, major) && dot < |text| && text[dot] == '.' && Number(text, dot + 1, minorEnd, minor)
    requires Spaces(text, minorEnd, end) && AtLineEnd(text, end)
    ensures VersionAt(text, Tail(protocol, dot, minorEnd, end))
  {
    hide NameSoFar, AtLineEnd, RoundTrip.Value;
  }

  /** The tail after a target that ends at `gap`. */
  lemma TailOf(text: Text, gap: int, end: int, r: Line) returns (t: Tail)
    requires Versioned(text, gap, end, r) && AtLineEnd(text, end)
    ensures TailFrom(text, gap, t) && t.protocol != gap
  {
    hide Major, Number, VersionAt, AtLineEnd;
    if r.protocol == NULL {
      t := Tail(NULL, 0, 0, end);
    } else {
      var e :| r.protocol < e <= end && Version(text, r.protocol, e, r.major, r.minor) && Spaces(text, e, end);
      var dot :| r.protocol < dot < e && dot < |text| && Major(text, r.protocol, dot, r.major) && text[dot] == '.' && Number(text, dot + 1, e, r.minor);
      t := Tail(r.protocol, dot, e, end);
      VersionOf(text, r.protocol, dot, e, end, r.major, r.minor);
    }
  }

  /** An authority of a complete line, as the lemmas above see it. */
  lemma AuthorityOf(text: Text, end: int, t: Tail, r: Line)
    requires Absolute(text, r.methodEnd, r.schemaStart, r.schemaEnd, r.hostStart, r.hostEnd, r.portEnd)
    requires PathAt(text, AuthorityEnd(r.hostEnd, r.portEnd), end, t)
    ensures TargetAt(text, r.schemaStart, r.schemaEnd, r.hostEnd, AuthorityEnd(r.hostEnd, r.portEnd), end, t)
    ensures Spaces(text, r.methodEnd + 1, r.schemaStart) && r.methodEnd + 1 < r.schemaStart
  {
    hide PathAt, RequestSlices.HostName;
  }

  lemma AuthorityInText(text: Text, r: Line)
    requires Absolute(text, r.methodEnd, r.schemaStart, r.schemaEnd, r.hostStart, r.hostEnd, r.portEnd)
    ensures 0 <= AuthorityEnd(r.hostEnd, r.portEnd) < |text|
  {
  }

  lemma TargetOf(text: Text, gap: int, t: Tail, r: Line) returns (first: int, colon: int)
    requires Targeted(text, r, gap) && UriText(text, r.uriStart, r.uriEnd) && TailFrom(text, gap, t) && t.protocol != gap
    ensures r.methodEnd + 1 < first <= |text| && Spaces(text, r.methodEnd + 1, first)
    ensures TargetAt(text, first, colon, r.hostEnd, AuthorityEnd(r.hostEnd, r.portEnd), r.uriEnd, t)
  {
    hide Absolute, TailFrom, UriText;
    if r.schemaStart == NULL {
      first, colon := r.uriStart, NULL;
    } else {
      first, colon := r.schemaStart, r.schemaEnd;
      AuthorityInText(text, r);
      AuthorityOf(text, r.uriEnd, t, r);
    }
  }

  /** A text of the form is completed. */
  lemma FormCompletes(text: Text, r: Line)
    requires Form(text, r)
    ensures Completes(text, 0, ZERO)
  {
    hide Completes, Targeted, Versioned, UriText, TargetAt, TailFrom;
    var gap :| gap <= r.requestEnd && Targeted(text, r, gap) && Versioned(text, gap, r.requestEnd, r);
    var t := TailOf(text, gap, r.requestEnd, r);
    var first, colon := TargetOf(text, gap, t, r);
    StartCompletes(text, 0, r.requestStart, r.methodEnd + 1, first, colon, r.hostEnd, AuthorityEnd(r.hostEnd, r.portEnd), r.uriEnd, t, ZERO);
  }

  /** The other direction: what the parser records of a completed text is its form. */
  lemma CompletesForm(text: Text) returns (r: Line)
    requires Completes(text, 0, ZERO)
    ensures Form(text, r)
  {
    hide Run, CompleteLine;
    match Run(text, 0, ZERO)
    case Complete(code, line, pos) =>
      r := line;
      EveryLineHasTheForm(text, code, r, pos);
      RequestSlices.SliceOrder(text, code, r, pos);
  }

  /** The parser completes exactly the texts of the form. */
  lemma LanguageIsExact(text: Text)
    ensures Completes(text, 0, ZERO) <==> exists r :: Form(text, r)
  {
    hide Completes, Form;
    if Completes(text, 0, ZERO) {
      var _ := CompletesForm(text);
    }
    if exists r :: Form(text, r) {
      var r :| Form(text, r);
      FormCompletes(text, r);
    }
  }

  /** In a longer text, the line ends after n bytes exactly when the first n bytes have the form. */
  lemma LineEndsExactly(text: Text, n: nat)
    requires n <= |text|
    ensures (Run(text, 0, ZERO).Complete? && Run(text, 0, ZERO).pos == n) <==> exists r :: Form(text[..n], r)
  {
    hide Run, Form;
    LanguageIsExact(text[..n]);
    if Run(text, 0, ZERO).Complete? {
      OnlyTheLineMatters(text, n);
    }
    assert text[..n] + text[n..] == text;
    RunPrefix(text[..n], text[n..], 0, ZERO);
  }
}
