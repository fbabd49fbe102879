/**
 When the parser refuses, and with which code.

 It refuses as soon as no continuation could complete the line, and never before: from
 every state that it can wait in, some bytes lead to a complete line.
 */
module RequestErrors {
  import opened Common
  import opened RequestLine
  import opened RequestGrammar
  import opened RequestLanguage
  import RequestSlices

  // ---------- a way on from every state ----------

  /** A byte that every line in this state may go on with. */
  function NextByte(s: State): Byte {
    match s
    case Start => 'G'
    case Method => ' '
    case Schema => ':'
    case HostIpLiteral => ']'
    case HttpH => 'T'
    case HttpHT => 'T'
    case HttpHTT => 'P'
    case FirstMajorDigit => '1'
    case MajorDigit => '.'
    case FirstMinorDigit => '1'
    case _ => if EndsLine(s) then LF else '/'
  }

  /** A line feed ends the line here. */
  predicate EndsLine(s: State) {
    InUriState(s) || AfterUriState(s) || s == MinorDigit || s == SpacesAfterDigit || s == AlmostDone
  }

  function NextState(s: State): State {
    match s
    case Start => Method
    case Method => SpacesBeforeUri
    case Schema => SchemaSlash
    case SchemaSlash => SchemaSlashSlash
    case SchemaSlashSlash => HostStart
    case HostIpLiteral => HostEnd
    case HttpH => HttpHT
    case HttpHT => HttpHTT
    case HttpHTT => HttpHTTP
    case HttpHTTP => FirstMajorDigit
    case FirstMajorDigit => MajorDigit
    case MajorDigit => FirstMinorDigit
    case FirstMinorDigit => MinorDigit
    case _ => AfterSlashInUri
  }

  function BytesToGo(s: State): nat {
    match s
    case Start => 4
    case Method => 3
    case SpacesBeforeUri => 2
    case Schema => 5
    case SchemaSlash => 4
    case SchemaSlashSlash => 3
    case HostStart => 2
    case Host => 2
    case HostEnd => 2
    case HostIpLiteral => 3
    case Port => 2
    case HttpH => 8
    case HttpHT => 7
    case HttpHTT => 6
    case HttpHTTP => 5
    case FirstMajorDigit => 4
    case MajorDigit => 3
    case FirstMinorDigit => 2
    case _ => 1
  }

  /** The shortest way on: these bytes complete a line in this state. */
  function WayOn(s: State): Text
    decreases BytesToGo(s)
  {
    [NextByte(s)] + if EndsLine(s) then [] else WayOn(NextState(s))
  }

  lemma StepOn(text: Text, p: nat, r: Line) returns (r': Line)
    requires p < |text| && text[p] == NextByte(r.state) && !EndsLine(r.state)
    ensures Dispatch(text, p, r) == Advance(r') && r'.state == NextState(r.state)
  {
    assert !IsLiteralByte(']');
    hide MethodCode, IsLiteralByte;
    r' := Dispatch(text, p, r).line;
  }

  lemma LastStep(text: Text, p: nat, r: Line)
    requires p < |text| && text[p] == LF && EndsLine(r.state)
    ensures Dispatch(text, p, r).Finish?
  {
    assert !Usual(LF);
    hide Usual;
  }

  lemma {:induction false} WayOnCompletes(text: Text, p: nat, r: Line)
    requires p <= |text| && text[p..] == WayOn(r.state)
    ensures Completes(text, p, r)
    decreases |text| - p
  {
    hide Completes, Dispatch;
    assert text[p] == text[p..][0];
    if EndsLine(r.state) {
      LastStep(text, p, r);
      AtFinish(text, p, r);
    } else {
      var r' := StepOn(text, p, r);
      assert text[p + 1..] == text[p..][1..] == WayOn(r'.state);
      WayOnCompletes(text, p + 1, r');
      After(text, p, r, r');
    }
  }

  // ---------- refused exactly when nothing helps ----------

  /** The text and these bytes after it begin with a complete line. */
  predicate CompletedBy(text: Text, more: Text) {
    Run(text + more, 0, ZERO).Complete?
  }

  /** A text is refused exactly when no bytes after it complete a line, and waits exactly when it needs some. */
  lemma RefusedExactly(text: Text)
    ensures Run(text, 0, ZERO).Rejected? <==> !exists more :: CompletedBy(text, more)
    ensures Run(text, 0, ZERO).Incomplete? <==> !CompletedBy(text, []) && exists more :: CompletedBy(text, more)
  {
    hide Run, WayOn;
    assert text + [] == text;
    match Run(text, 0, ZERO)
    case Incomplete(r) =>
      var more := WayOn(r.state);
      RunPrefix(text, more, 0, ZERO);
      assert (text + more)[|text|..] == more;
      WayOnCompletes(text + more, |text|, r);
      assert CompletedBy(text, more);
    case Complete(_, _, _) => assert CompletedBy(text, []);
    case Rejected(_, _) =>
      forall more ensures !CompletedBy(text, more) {
        RunPrefix(text, more, 0, ZERO);
      }
  }

  // ---------- the code of a refusal ----------

  /** Empty lines, method bytes, and then a byte that is neither a method byte nor the space after one. */
  ghost predicate BadMethodAt(text: Text, start: int, q: int) {
    && 0 <= start <= q < |text| && LineEnds(text, start) && RequestSlices.Token(text, start, q) && !IsMethodByte(text[q])
    && if start == q then text[q] != CR && text[q] != LF else text[q] != ' '
  }

  ghost predicate BadMethod(text: Text) {
    exists start, q :: BadMethodAt(text, start, q)
  }

  /** A whole method leaves no room for a bad one. */
  lemma WholeIsGood(text: Text, s: nat, e: nat, start: int, q: int)
    requires s < e < |text| && LineEnds(text, s) && RequestSlices.Token(text, s, e) && text[e] == ' '
    ensures !BadMethodAt(text, start, q)
  {
    assert IsMethodByte(text[s]) && !IsMethodByte(text[e]);
    if s <= q < e {
      assert IsMethodByte(text[q]);
    }
    if 0 <= start < s {
      assert text[start] == CR || text[start] == LF;
    }
  }

  lemma NamedIsGood(text: Text, r: Line)
    requires Named(text, r.requestStart, r.methodEnd, r.verb)
    ensures !BadMethod(text)
  {
    hide MethodCode, BadMethodAt;
    forall start, q ensures !BadMethodAt(text, start, q) {
      WholeIsGood(text, r.requestStart, r.methodEnd + 1, start, q);
    }
  }

  lemma ShapeCode(text: Text, p: nat, r: Line)
    requires p < |text| && Shape(text, p, r) && Dispatch(text, p, r).Reject?
    ensures Dispatch(text, p, r).code == if BadMethod(text) then INVALID_METHOD else INVALID_REQUEST
  {
    DispatchCode(text, p, r);
    if r.state == Start {
      hide MethodCode;
      assert BadMethodAt(text, p, p);
    } else if r.state == Method {
      hide MethodCode;
      assert BadMethodAt(text, r.requestStart, p);
    } else {
      hide Dispatch;
      ShapeNamed(text, p, r);
      NamedIsGood(text, r);
    }
  }

  lemma ShapeNamed(text: Text, p: nat, r: Line)
    requires p <= |text| && Shape(text, p, r) && r.state != Start && r.state != Method
    ensures Named(text, r.requestStart, r.methodEnd, r.verb)
  {
    hide Named, Targeted, Versioned, Introduced, Schemed, Hosted, Version, Major, Number, NameSoFar, Direct;
  }

  lemma {:induction false} RunCode(text: Text, p: nat, r: Line)
    requires p <= |text| && Shape(text, p, r)
    ensures match Run(text, p, r)
            case Rejected(code, _) => code == if BadMethod(text) then INVALID_METHOD else INVALID_REQUEST
            case _ => true
    decreases |text| - p, if MayRedo(r.state) then 1 else 0
  {
    hide Dispatch, Run, Shape, BadMethod;
    if p < |text| {
      DispatchShape(text, p, r);
      DispatchRedo(text, p, r);
      RunStep(text, p, r);
      match Dispatch(text, p, r)
      case Advance(line) => RunCode(text, p + 1, line);
      case Redo(line) => RunCode(text, p, line);
      case Finish(_) =>
      case Reject(_, _) => ShapeCode(text, p, r);
    } else {
      RunEnd(text, r);
    }
  }

  /** A refused text is refused for its method exactly when the method is bad. */
  lemma CodeExactly(text: Text, code: int, r: Line)
    requires Run(text, 0, ZERO) == Rejected(code, r)
    ensures code == if BadMethod(text) then INVALID_METHOD else INVALID_REQUEST
  {
    hide Run;
    RunCode(text, 0, ZERO);
  }
}
