/**
 What the recorded positions and flags mean, for every text that parses.

 The reference notions below look at the text alone: where a path is clean, where its
 extension begins, whether it holds a space. The invariant ties the parser's fields to
 them in each of its states.
 */
module RequestSlices {
  import opened Common
  import opened RequestLine

  // ---------- reference notions on the text ----------

  /** The byte at j directly follows a slash, or a slash and plus signs. */
  predicate FollowsSlash(text: Text, from: int, j: int)
    requires 0 <= from && j <= |text|
    decreases j
  {
    from < j && (text[j - 1] == '/' || (text[j - 1] == '+' && FollowsSlash(text, from, j - 1)))
  }

  predicate CleanAt(text: Text, from: int, j: int)
    requires 0 <= from <= j < |text|
  {
    && text[j] != '%' && text[j] != '#' && text[j] != '?' && text[j] != NUL
    && ((text[j] == '/' || text[j] == '.') ==> !FollowsSlash(text, from, j))
  }

  /** A path that needs no normalisation: nothing escaped, no fragment, no empty or dotted segment. */
  predicate CleanPath(text: Text, from: int, end: int)
    requires 0 <= from && end <= |text|
  {
    forall j | from <= j < end :: CleanAt(text, from, j)
  }

  /** The first byte that is not clean is no question mark, and tells how the flags are set. */
  predicate Spoilt(text: Text, from: int, end: int, quoted: bool, complex: bool)
    requires 0 <= from && end <= |text|
  {
    exists j | from <= j < end ::
      && CleanPath(text, from, j) && !CleanAt(text, from, j) && text[j] != '?'
      && (quoted <==> text[j] == '%') && (complex <==> text[j] != '%' || Has(text, j + 1, end, '#'))
  }

  /** A plus sign in the clean part of the path. */
  predicate PlusSeen(text: Text, from: int, end: int)
    requires 0 <= from && end <= |text|
  {
    exists j | from <= j < end :: text[j] == '+' && CleanPath(text, from, j)
  }

  predicate Has(text: Text, from: int, end: int, ch: Byte)
    requires 0 <= from && end <= |text|
  {
    exists j :: from <= j < end && text[j] == ch
  }

  /** Where the extension of the last segment begins: after its last dot. */
  function Extension(text: Text, from: int, end: int): (e: int)
    requires 0 <= from && end <= |text|
    ensures e != NULL ==> from < e <= end && text[e - 1] == '.'
    decreases end
  {
    if end <= from || text[end - 1] == '/' then NULL
    else if text[end - 1] == '.' then end
    else Extension(text, from, end - 1)
  }

  /** The first byte of the URI that is not clean, or its end. */
  function FirstUnclean(text: Text, from: int, j: int, end: int): (f: int)
    requires 0 <= from <= j <= end <= |text|
    ensures j <= f <= end && (f < end ==> !CleanAt(text, from, f))
    ensures CleanPath(text, from, j) ==> CleanPath(text, from, f)
    decreases end - j
  {
    if j == end || !CleanAt(text, from, j) then j else FirstUnclean(text, from, j + 1, end)
  }

  lemma {:induction false} FirstUncleanIs(text: Text, from: int, j: int, f: int, end: int)
    requires 0 <= from <= j <= f <= end <= |text| && CleanPath(text, from, f) && (f < end ==> !CleanAt(text, from, f))
    ensures FirstUnclean(text, from, j, end) == f
    decreases f - j
  {
    if j < f {
      FirstUncleanIs(text, from, j + 1, f, end);
    }
  }

  lemma {:induction false} FirstUncleanAfter(text: Text, from: int, j: int, m: int, end: int)
    requires 0 <= from <= j <= m <= end <= |text| && CleanPath(text, from, m)
    ensures FirstUnclean(text, from, j, end) >= m
    decreases m - j
  {
    if j < m {
      FirstUncleanAfter(text, from, j + 1, m, end);
    }
  }

  lemma CleanWhole(text: Text, from: int, end: int)
    requires 0 <= from <= end <= |text| && CleanPath(text, from, end)
    ensures FirstUnclean(text, from, from, end) == end
  {
    FirstUncleanIs(text, from, from, end, end);
  }

  /** Later bytes do not change which byte is the first one. */
  lemma UncleanStays(text: Text, from: int, p: int)
    requires 0 <= from <= p < |text| && !CleanPath(text, from, p + 1)
    ensures FirstUnclean(text, from, from, p + 1) == FirstUnclean(text, from, from, p)
  {
    var f := FirstUnclean(text, from, from, p + 1);
    assert CleanPath(text, from, from);
    FirstUncleanIs(text, from, from, f, p);
  }

  predicate Token(text: Text, from: int, end: int)
    requires 0 <= from && end <= |text|
  {
    forall j | from <= j < end :: IsMethodByte(text[j])
  }

  /** A registered name, or an IP literal in brackets. */
  predicate HostName(text: Text, from: int, end: int)
    requires 0 <= from <= end <= |text|
  {
    || (forall j | from <= j < end :: IsHostByte(text[j]))
    || Literal(text, from, end)
  }

  predicate Literal(text: Text, from: int, end: int)
    requires 0 <= from <= end <= |text|
  {
    && from + 2 <= end && text[from] == '[' && text[end - 1] == ']'
    && forall j | from < j < end - 1 :: IsLiteralByte(text[j])
  }

  // ---------- the invariant ----------

  predicate Flagged(r: Line) {
    r.complexUri || r.quotedUri
  }

  /** Where the path ends when the URI ends at `end`. */
  function PathEnd(r: Line, end: int): int {
    if r.argsStart == NULL then end else r.argsStart - 1
  }

  /** The URI's own bytes: a slash first, no line end or NUL, and no space before an 'H', which would begin the protocol. */
  predicate UriBytes(text: Text, methodEnd: int, uriStart: int, end: int)
    requires end <= |text|
  {
    && 0 <= methodEnd && methodEnd + 1 < uriStart < end && text[uriStart] == '/'
    && (forall j | uriStart <= j < end :: text[j] != CR && text[j] != LF && text[j] != NUL)
    && forall j | uriStart < j < end && text[j] == 'H' :: text[j - 1] != ' '
  }

  /** The arguments follow a question mark that ends a clean path. */
  predicate ArgsFit(text: Text, uriStart: int, argsStart: int, end: int)
    requires 0 <= uriStart && end <= |text|
  {
    argsStart != NULL ==>
      && uriStart < argsStart - 1 < end && text[argsStart - 1] == '?'
      && CleanPath(text, uriStart, argsStart - 1)
  }

  /** The two flags that ask for normalisation. */
  predicate FlagsFit(text: Text, uriStart: int, argsStart: int, end: int, quoted: bool, complex: bool)
    requires 0 <= uriStart && end <= |text| && (argsStart != NULL ==> 0 <= argsStart)
  {
    if argsStart != NULL then !quoted && (complex <==> Has(text, argsStart, end, '#'))
    else if quoted || complex then Spoilt(text, uriStart, end, quoted, complex)
    else CleanPath(text, uriStart, end)
  }

  /** The extension is that of the clean part of the path. */
  predicate ExtensionFits(text: Text, uriStart: int, end: int, uriExt: int)
    requires 0 <= uriStart <= end <= |text|
  {
    uriExt == Extension(text, uriStart, FirstUnclean(text, uriStart, uriStart, end))
  }

  /** The URI begins with a slash after the method and has reached `end`. */
  predicate UriSoFar(text: Text, r: Line, end: int)
    requires end <= |text|
  {
    && UriBytes(text, r.methodEnd, r.uriStart, end)
    && ArgsFit(text, r.uriStart, r.argsStart, end)
    && FlagsFit(text, r.uriStart, r.argsStart, end, r.quotedUri, r.complexUri)
    && ExtensionFits(text, r.uriStart, end, r.uriExt)
    && (r.spaceInUri <==> Has(text, r.uriStart, end, ' '))
    && (r.plusInUri <==> PlusSeen(text, r.uriStart, end))
  }

  predicate MethodSoFar(text: Text, p: int, r: Line)
    requires p <= |text|
  {
    && 0 <= r.requestStart <= r.methodEnd && r.methodEnd + 1 < p
    && Token(text, r.requestStart, r.methodEnd + 1) && text[r.methodEnd + 1] == ' '
    && r.requestEnd == NULL
  }

  predicate NoUri(r: Line) {
    && r.uriExt == NULL && r.argsStart == NULL
    && !r.complexUri && !r.quotedUri && !r.spaceInUri && !r.plusInUri
  }

  predicate BeforeUri(text: Text, p: int, r: Line)
    requires p <= |text|
  {
    MethodSoFar(text, p, r) && NoUri(r) && r.hostStart == NULL && r.hostEnd == NULL
  }

  predicate SchemaSoFar(text: Text, p: int, r: Line, slashes: nat)
    requires p <= |text|
  {
    && 0 <= r.methodEnd && r.methodEnd + 1 < r.schemaEnd && r.schemaEnd + 1 + slashes <= p
    && (slashes >= 1 ==> text[r.schemaEnd + 1] == '/') && (slashes >= 2 ==> text[r.schemaEnd + 2] == '/')
  }

  predicate HostSoFar(text: Text, p: int, r: Line)
    requires p <= |text|
  {
    SchemaSoFar(text, p, r, 2) && r.schemaEnd + 3 <= r.hostStart < p
  }

  /** Either no host at all, or a host before p. */
  predicate HostOk(text: Text, p: int, r: Line)
    requires p <= |text|
  {
    || (r.hostStart == NULL && r.hostEnd == NULL)
    || (0 <= r.hostStart <= r.hostEnd < p && HostName(text, r.hostStart, r.hostEnd))
  }

  predicate UriClosed(text: Text, p: int, r: Line)
    requires p <= |text|
  {
    && 0 < r.uriEnd < p && UriSoFar(text, r, r.uriEnd) && text[r.uriEnd - 1] != ' '
  }

  predicate SpacesSince(text: Text, p: int, r: Line)
    requires p <= |text|
  {
    0 <= r.uriEnd < p && forall j | r.uriEnd <= j < p :: text[j] == ' '
  }

  /** The URI goes on after a space. */
  predicate MayEnd(text: Text, p: int)
    requires p <= |text|
  {
    0 < p && (text[p - 1] == ' ' ==> p < |text| && !EndsUri(text[p]) && text[p] != 'H')
  }

  predicate InUri(text: Text, p: int, r: Line)
    requires 0 <= p <= |text|
  {
    MethodSoFar(text, p, r) && HostOk(text, p, r) && UriSoFar(text, r, p) && MayEnd(text, p)
  }

  /** Inside a path that is clean so far. */
  predicate InPath(text: Text, p: int, r: Line)
    requires 0 <= p <= |text|
  {
    InUri(text, p, r) && r.argsStart == NULL && !Flagged(r)
  }

  /** Past the clean path. */
  predicate InTail(text: Text, p: int, r: Line)
    requires 0 <= p <= |text|
  {
    InUri(text, p, r) && (r.argsStart == NULL ==> Flagged(r))
  }

  /** What holds of the fields before byte p is read. */
  predicate Fits(text: Text, p: int, r: Line)
    requires 0 <= p <= |text|
  {
    match r.state
    case Start => r == ZERO.(requestStart := r.requestStart)
    case Method =>
      && r == ZERO.(state := Method, requestStart := r.requestStart)
      && 0 <= r.requestStart < p && Token(text, r.requestStart, p)
    case SpacesBeforeUri => BeforeUri(text, p, r)
    case Schema => BeforeUri(text, p, r)
    case SchemaSlash => BeforeUri(text, p, r) && SchemaSoFar(text, p, r, 0) && r.schemaEnd + 1 == p
    case SchemaSlashSlash => BeforeUri(text, p, r) && SchemaSoFar(text, p, r, 1) && r.schemaEnd + 2 == p
    case HostStart => BeforeUri(text, p, r) && SchemaSoFar(text, p, r, 2)
    case Host =>
      && MethodSoFar(text, p, r) && NoUri(r) && HostSoFar(text, p, r)
      && forall j | r.hostStart <= j < p :: IsHostByte(text[j])
    case HostIpLiteral =>
      && MethodSoFar(text, p, r) && NoUri(r) && HostSoFar(text, p, r)
      && text[r.hostStart] == '[' && forall j | r.hostStart < j < p :: IsLiteralByte(text[j])
    case HostEnd =>
      MethodSoFar(text, p, r) && NoUri(r) && HostSoFar(text, p, r) && Literal(text, r.hostStart, p)
    case Port => MethodSoFar(text, p, r) && NoUri(r) && SchemaSoFar(text, p, r, 2) && HostOk(text, p, r)
    case AfterSlashInUri => InPath(text, p, r) && FollowsSlash(text, r.uriStart, p)
    case CheckUri => InPath(text, p, r) && !FollowsSlash(text, r.uriStart, p)
    case Uri => InTail(text, p, r)
    case CheckUriHttp09 =>
      && MethodSoFar(text, p, r) && HostOk(text, p, r) && UriClosed(text, p, r) && SpacesSince(text, p, r)
      && r.argsStart == NULL && !Flagged(r)
    case Http09 =>
      && MethodSoFar(text, p, r) && HostOk(text, p, r) && UriClosed(text, p, r) && SpacesSince(text, p, r)
      && (r.argsStart == NULL ==> Flagged(r))
    case AlmostDone => MethodSoFar(text, p, r) && HostOk(text, p, r) && UriClosed(text, p, r) && text[p - 1] == CR
    case _ => MethodSoFar(text, p, r) && HostOk(text, p, r) && UriClosed(text, p, r)
  }

  /** The line ends with the line feed at p. */
  predicate Ends(text: Text, p: int, r: Line)
    requires 0 <= p < |text|
  {
    && MethodSoFar(text, p, r.(requestEnd := NULL)) && HostOk(text, p, r)
    && 0 < r.uriEnd <= p && UriSoFar(text, r, r.uriEnd) && text[r.uriEnd - 1] != ' '
    && r.uriEnd <= (if r.requestEnd == NULL then p else r.requestEnd)
    && (r.requestEnd == NULL || (r.requestEnd == p - 1 && text[p - 1] == CR))
  }

  predicate VerdictFits(text: Text, p: int, v: Verdict)
    requires 0 <= p < |text|
  {
    match v
    case Advance(r) => Fits(text, p + 1, r)
    case Redo(r) => Fits(text, p, r)
    case Finish(r) => Ends(text, p, r)
    case Reject(_, _) => true
  }

  // ---------- each state keeps it ----------

  lemma StartKeeps(text: Text, p: nat, r: Line)
    requires p < |text| && Fits(text, p, r) && r.state == Start
    ensures VerdictFits(text, p, OnStart(r, p, text[p]))
  {
    hide MethodSoFar, UriSoFar, HostOk, InUri, BeforeUri, SchemaSoFar, HostSoFar, UriClosed;
  }

  lemma MethodKeeps(text: Text, p: nat, r: Line)
    requires p < |text| && Fits(text, p, r) && r.state == Method
    ensures VerdictFits(text, p, OnMethod(text, r, p, text[p]))
  {
    hide MethodCode, UriSoFar, HostOk, InUri, SchemaSoFar, HostSoFar, UriClosed;
  }

  /** A fresh URI: the slash at p is all of it. */
  lemma UriBegins(text: Text, p: nat, r: Line)
    requires p < |text| && text[p] == '/' && NoUri(r) && 0 <= r.methodEnd && r.methodEnd + 1 < p
    ensures UriSoFar(text, r.(uriStart := p), p + 1) && FollowsSlash(text, p, p + 1)
  {
    assert CleanAt(text, p, p);
    CleanWhole(text, p, p + 1);
  }

  lemma SpacesBeforeUriKeeps(text: Text, p: nat, r: Line)
    requires p < |text| && Fits(text, p, r) && r.state == SpacesBeforeUri
    ensures VerdictFits(text, p, OnSpacesBeforeUri(r, p, text[p]))
  {
    hide UriSoFar, FollowsSlash;
    if text[p] == '/' {
      UriBegins(text, p, r.(state := AfterSlashInUri));
    }
  }

  lemma BeforeUriStays(text: Text, p: nat, r: Line, r': Line)
    requires p < |text| && BeforeUri(text, p, r)
    requires r' == r.(schemaEnd := r'.schemaEnd, state := r'.state)
    ensures BeforeUri(text, p + 1, r')
  {
  }

  lemma SchemaKeeps(text: Text, p: nat, r: Line)
    requires p < |text| && Fits(text, p, r)
    ensures r.state == Schema ==> VerdictFits(text, p, OnSchema(r, p, text[p]))
    ensures r.state == SchemaSlash ==> VerdictFits(text, p, Expect(r, text[p], '/', SchemaSlashSlash))
    ensures r.state == SchemaSlashSlash ==> VerdictFits(text, p, Expect(r, text[p], '/', HostStart))
  {
    if r.state == Schema || r.state == SchemaSlash || r.state == SchemaSlashSlash {
      SchemaMethod(text, p, r);
      BeforeUriStays(text, p, r, r);
      BeforeUriStays(text, p, r, r.(schemaEnd := p, state := SchemaSlash));
      BeforeUriStays(text, p, r, r.(state := SchemaSlashSlash));
      BeforeUriStays(text, p, r, r.(state := HostStart));
    }
    hide BeforeUri;
  }

  lemma SchemaMethod(text: Text, p: nat, r: Line)
    requires p < |text| && BeforeUri(text, p, r)
    ensures 0 <= r.methodEnd && r.methodEnd + 1 < p
  {
  }

  /** The root URI of an absolute form is the slash after the schema. */
  lemma RootUriFits(text: Text, p: nat, r: Line)
    requires p < |text| && NoUri(r) && SchemaSoFar(text, p, r, 2)
    ensures var u := RootUri(r);
            UriSoFar(text, u, u.uriEnd) && u.uriEnd == u.uriStart + 1 <= p
  {
    UriBegins(text, r.schemaEnd + 1, r);
  }

  lemma HostEndKeeps(text: Text, p: nat, r: Line)
    requires p < |text| && MethodSoFar(text, p, r) && NoUri(r) && SchemaSoFar(text, p, r, 2)
    requires r.schemaEnd + 3 <= r.hostStart <= p && HostName(text, r.hostStart, p)
    ensures VerdictFits(text, p, OnHostEnd(r, p, text[p]))
  {
    hide UriSoFar, FollowsSlash, HostName;
    if text[p] == '/' {
      UriBegins(text, p, r.(hostEnd := p, state := AfterSlashInUri));
    } else if text[p] == ' ' {
      RootUriFits(text, p, r.(hostEnd := p));
    }
  }

  lemma HostKeeps(text: Text, p: nat, r: Line)
    requires p < |text| && Fits(text, p, r)
    ensures r.state == HostStart ==> VerdictFits(text, p, OnHostStart(r, p, text[p]))
    ensures r.state == Host ==> VerdictFits(text, p, OnHost(r, p, text[p]))
    ensures r.state == HostEnd ==> VerdictFits(text, p, OnHostEnd(r, p, text[p]))
  {
    hide UriSoFar, FollowsSlash, OnHostEnd;
    if r.state == HostStart {
      HostEndKeeps(text, p, r.(hostStart := p, state := Host));
    } else if r.state == Host || r.state == HostEnd {
      HostEndKeeps(text, p, r);
    }
  }

  lemma HostIpLiteralKeeps(text: Text, p: nat, r: Line)
    requires p < |text| && Fits(text, p, r) && r.state == HostIpLiteral
    ensures VerdictFits(text, p, OnHostIpLiteral(r, text[p]))
  {
    hide IsLiteralByte;
  }

  lemma PortKeeps(text: Text, p: nat, r: Line)
    requires p < |text| && Fits(text, p, r) && r.state == Port
    ensures VerdictFits(text, p, OnPort(r, p, text[p]))
  {
    hide UriSoFar, FollowsSlash, HostName;
    if text[p] == '/' {
      UriBegins(text, p, r.(portEnd := p, state := AfterSlashInUri));
    } else if text[p] == ' ' {
      RootUriFits(text, p, r.(portEnd := p));
    }
  }

  /** One more byte, as the reference notions see it. */
  lemma OneMore(text: Text, from: nat, p: nat, ch: Byte)
    requires from <= p < |text|
    ensures Has(text, from, p + 1, ch) <==> Has(text, from, p, ch) || text[p] == ch
    ensures CleanPath(text, from, p + 1) <==> CleanPath(text, from, p) && CleanAt(text, from, p)
  {
    if Has(text, from, p, ch) {
      var j :| from <= j < p && text[j] == ch;
      assert from <= j < p + 1 && text[j] == ch;
    }
  }

  lemma OneMorePlus(text: Text, from: nat, p: nat)
    requires from <= p < |text|
    ensures PlusSeen(text, from, p + 1) <==> PlusSeen(text, from, p) || (text[p] == '+' && CleanPath(text, from, p))
  {
    if PlusSeen(text, from, p) {
      var j :| from <= j < p && text[j] == '+' && CleanPath(text, from, j);
      assert from <= j < p + 1 && text[j] == '+' && CleanPath(text, from, j);
    }
  }

  lemma BytesMore(text: Text, methodEnd: int, uriStart: int, p: nat)
    requires p < |text| && UriBytes(text, methodEnd, uriStart, p) && text[p] != CR && text[p] != LF && text[p] != NUL
    requires text[p] == 'H' ==> 0 < p && text[p - 1] != ' '
    ensures UriBytes(text, methodEnd, uriStart, p + 1) && 0 <= uriStart < p
  {
  }

  lemma HasNone(text: Text, from: nat, ch: Byte)
    requires from <= |text|
    ensures !Has(text, from, from, ch)
  {
  }

  lemma NotClean(text: Text, from: nat, j: int, p: nat)
    requires from <= j < p <= |text| && !CleanAt(text, from, j)
    ensures !CleanPath(text, from, p)
  {
  }

  /** A byte that keeps the path clean. */
  lemma CleanByte(text: Text, p: nat, r: Line)
    requires p < |text| && UriSoFar(text, r, p) && r.argsStart == NULL && !Flagged(r)
    requires CleanAt(text, r.uriStart, p) && !EndsUri(text[p]) && MayEnd(text, p)
    ensures UriSoFar(text, r.(uriExt := Extension(text, r.uriStart, p + 1), plusInUri := r.plusInUri || text[p] == '+'), p + 1)
  {
    hide CleanPath, Has, Spoilt, PlusSeen, Extension, FollowsSlash, UriBytes, FirstUnclean;
    BytesMore(text, r.methodEnd, r.uriStart, p);
    OneMore(text, r.uriStart, p, ' ');
    OneMorePlus(text, r.uriStart, p);
    CleanWhole(text, r.uriStart, p + 1);
  }

  lemma SpoiltNow(text: Text, from: nat, p: nat)
    requires from <= p < |text| && CleanPath(text, from, p) && !CleanAt(text, from, p) && text[p] != '?'
    ensures Spoilt(text, from, p + 1, text[p] == '%', text[p] != '%') && !CleanPath(text, from, p + 1)
  {
    HasNone(text, p + 1, '#');
  }

  /** A byte that asks for normalisation. */
  lemma DirtyByte(text: Text, p: nat, r: Line, complexUri: bool, quotedUri: bool)
    requires p < |text| && UriSoFar(text, r, p) && r.argsStart == NULL && quotedUri == (text[p] == '%') && complexUri == !quotedUri
    requires !CleanAt(text, r.uriStart, p) && text[p] != '?' && !Flagged(r)
    requires !EndsUri(text[p]) && text[p] != NUL && MayEnd(text, p)
    ensures UriSoFar(text, r.(complexUri := complexUri, quotedUri := quotedUri), p + 1)
  {
    assert text[p] != '+';
    hide CleanPath, CleanAt, Has, Spoilt, PlusSeen, Extension, UriBytes, FirstUnclean;
    BytesMore(text, r.methodEnd, r.uriStart, p);
    OneMore(text, r.uriStart, p, ' ');
    OneMorePlus(text, r.uriStart, p);
    SpoiltNow(text, r.uriStart, p);
    UncleanStays(text, r.uriStart, p);
  }

  lemma QuestionMark(text: Text, p: nat, r: Line)
    requires p < |text| && UriSoFar(text, r, p) && r.argsStart == NULL && !Flagged(r) && text[p] == '?'
    ensures UriSoFar(text, r.(argsStart := p + 1), p + 1)
  {
    assert !CleanAt(text, r.uriStart, p);
    hide CleanPath, CleanAt, Has, Spoilt, PlusSeen, Extension, UriBytes, FirstUnclean;
    BytesMore(text, r.methodEnd, r.uriStart, p);
    OneMore(text, r.uriStart, p, ' ');
    OneMorePlus(text, r.uriStart, p);
    HasNone(text, p + 1, '#');
    NotClean(text, r.uriStart, p, p + 1);
    UncleanStays(text, r.uriStart, p);
  }

  predicate SameUri(r: Line, r': Line) {
    && r'.methodEnd == r.methodEnd && r'.uriStart == r.uriStart && r'.argsStart == r.argsStart
    && r'.uriExt == r.uriExt && r'.spaceInUri == r.spaceInUri
    && r'.complexUri == r.complexUri && r'.quotedUri == r.quotedUri && r'.plusInUri == r.plusInUri
  }

  lemma CopyUri(text: Text, r: Line, r': Line, end: int)
    requires 0 <= end <= |text| && UriSoFar(text, r, end) && SameUri(r, r')
    ensures UriSoFar(text, r', end)
  {
    hide CleanPath, Has, Spoilt, PlusSeen, Extension, UriBytes, FirstUnclean;
  }

  /** The state after a clean byte shows whether the byte leaves a slash open. */
  lemma FollowsNext(text: Text, from: nat, p: nat)
    requires from <= p < |text|
    ensures FollowsSlash(text, from, p + 1) <==> text[p] == '/' || (text[p] == '+' && FollowsSlash(text, from, p))
    ensures Extension(text, from, p + 1) == if text[p] == '/' then NULL else if text[p] == '.' then p + 1 else Extension(text, from, p)
  {
  }

  lemma ClosedExtension(text: Text, p: nat, r: Line)
    requires p <= |text| && UriSoFar(text, r, p) && r.argsStart == NULL && !Flagged(r)
    ensures r.uriExt == Extension(text, r.uriStart, p) && 0 <= r.uriStart < p
  {
    hide CleanPath, Extension, FirstUnclean;
    CleanWhole(text, r.uriStart, p);
  }

  /** The end of the URI at a space, a carriage return or a line feed. */
  lemma EndUriKeeps(text: Text, p: nat, r: Line, after: State)
    requires p < |text| && MethodSoFar(text, p, r) && HostOk(text, p, r) && UriSoFar(text, r, p) && MayEnd(text, p)
    requires EndsUri(text[p])
    requires after == CheckUriHttp09 ==> r.argsStart == NULL && !Flagged(r)
    requires after == Http09 && r.argsStart == NULL ==> Flagged(r)
    requires after == CheckUriHttp09 || after == Http09
    ensures VerdictFits(text, p, EndUri(r, p, text[p], after))
  {
    hide UriSoFar, HostOk, MethodSoFar, UriClosed, Ends, MayEnd, InUri, BeforeUri, SchemaSoFar, HostSoFar;
    var r' := EndUri(r, p, text[p], after).line;
    UriCloses(text, p, r, r');
    if text[p] == ' ' {
      assert SpacesSince(text, p + 1, r');
      assert Fits(text, p + 1, r');
    } else if text[p] == CR {
      assert Fits(text, p + 1, r');
    }
  }

  lemma UriCloses(text: Text, p: nat, r: Line, r': Line)
    requires p < |text| && MethodSoFar(text, p, r) && HostOk(text, p, r) && UriSoFar(text, r, p) && MayEnd(text, p)
    requires EndsUri(text[p]) && SameUri(r, r') && r'.uriEnd == p
    requires r'.requestStart == r.requestStart && r'.requestEnd == r.requestEnd
    requires r'.hostStart == r.hostStart && r'.hostEnd == r.hostEnd
    ensures MethodSoFar(text, p + 1, r') && HostOk(text, p + 1, r') && UriClosed(text, p + 1, r') && Ends(text, p, r')
  {
    hide UriSoFar, HostOk, Token;
    CopyUri(text, r, r', p);
    SameHost(text, r, r', p);
  }

  lemma SameHost(text: Text, r: Line, r': Line, p: nat)
    requires p < |text| && HostOk(text, p, r) && r'.hostStart == r.hostStart && r'.hostEnd == r.hostEnd
    ensures HostOk(text, p, r') && HostOk(text, p + 1, r')
  {
  }

  /** The URI fields after a byte of a path that was clean so far. */
  function NextUri(text: Text, p: nat, r: Line): Line
    requires p < |text| && 0 <= r.uriStart <= p
  {
    if CleanAt(text, r.uriStart, p) then r.(uriExt := Extension(text, r.uriStart, p + 1), plusInUri := r.plusInUri || text[p] == '+')
    else if text[p] == '?' then r.(argsStart := p + 1)
    else r.(complexUri := text[p] != '%', quotedUri := text[p] == '%')
  }

  lemma PathByte(text: Text, p: nat, r: Line)
    requires p < |text| && UriSoFar(text, r, p) && r.argsStart == NULL && !Flagged(r)
    requires !EndsUri(text[p]) && text[p] != NUL && MayEnd(text, p)
    ensures UriSoFar(text, NextUri(text, p, r), p + 1)
  {
    hide UriSoFar;
    ClosedExtension(text, p, r);
    if CleanAt(text, r.uriStart, p) {
      CleanByte(text, p, r);
    } else if text[p] == '?' {
      QuestionMark(text, p, r);
    } else {
      DirtyByte(text, p, r, text[p] != '%', text[p] == '%');
    }
  }

  /** The method and the host stay where they are. */
  lemma Unmoved(text: Text, p: nat, r: Line, r': Line)
    requires p < |text| && MethodSoFar(text, p, r) && HostOk(text, p, r)
    requires r'.requestStart == r.requestStart && r'.methodEnd == r.methodEnd && r'.requestEnd == r.requestEnd
    requires r'.hostStart == r.hostStart && r'.hostEnd == r.hostEnd
    ensures MethodSoFar(text, p + 1, r') && HostOk(text, p + 1, r')
  {
    SameHost(text, r, r', p);
  }

  /** One byte inside a clean path, whatever the parser does with the fields outside the URI. */
  lemma PathStep(text: Text, p: nat, r: Line, r': Line)
    requires p < |text| && InPath(text, p, r) && !EndsUri(text[p]) && text[p] != NUL
    requires 0 <= r.uriStart <= p && SameUri(NextUri(text, p, r), r')
    requires r'.requestStart == r.requestStart && r'.requestEnd == r.requestEnd
    requires r'.hostStart == r.hostStart && r'.hostEnd == r.hostEnd
    ensures if CleanAt(text, r.uriStart, p) then InPath(text, p + 1, r') else InTail(text, p + 1, r')
  {
    hide UriSoFar, HostOk, MethodSoFar, Extension;
    Unmoved(text, p, r, r');
    PathByte(text, p, r);
    CopyUri(text, NextUri(text, p, r), r', p + 1);
  }

  lemma AfterSlashInUriKeeps(text: Text, p: nat, r: Line)
    requires p < |text| && Fits(text, p, r) && r.state == AfterSlashInUri
    ensures VerdictFits(text, p, OnAfterSlashInUri(r, p, text[p]))
  {
    hide InUri, FollowsSlash, Extension, EndUri;
    var ch := text[p];
    if EndsUri(ch) {
      PathEnds(text, p, r);
    } else if ch != NUL {
      PathIsExtension(text, p, r);
      FollowsNext(text, r.uriStart, p);
      PathStep(text, p, r, OnAfterSlashInUri(r, p, ch).line);
    }
  }

  lemma CheckUriKeeps(text: Text, p: nat, r: Line)
    requires p < |text| && Fits(text, p, r) && r.state == CheckUri
    ensures VerdictFits(text, p, OnCheckUri(r, p, text[p]))
  {
    hide InUri, FollowsSlash, Extension, EndUri;
    var ch := text[p];
    if EndsUri(ch) {
      PathEnds(text, p, r);
    } else if ch != NUL {
      PathIsExtension(text, p, r);
      FollowsNext(text, r.uriStart, p);
      PathStep(text, p, r, OnCheckUri(r, p, ch).line);
    }
  }

  lemma PathIsExtension(text: Text, p: nat, r: Line)
    requires p < |text| && InPath(text, p, r)
    ensures r.uriExt == Extension(text, r.uriStart, p) && 0 <= r.uriStart < p
  {
    ClosedExtension(text, p, r);
  }

  lemma PathEnds(text: Text, p: nat, r: Line)
    requires p < |text| && InPath(text, p, r) && EndsUri(text[p])
    ensures VerdictFits(text, p, EndUri(r, p, text[p], CheckUriHttp09))
  {
    hide UriSoFar, HostOk, MethodSoFar, EndUri, VerdictFits;
    EndUriKeeps(text, p, r, CheckUriHttp09);
  }

  /** After the first byte that is not clean only a fragment sign still counts. */
  lemma SpoiltMore(text: Text, from: nat, p: nat, quoted: bool, complex: bool)
    requires from <= p < |text| && Spoilt(text, from, p, quoted, complex)
    ensures Spoilt(text, from, p + 1, quoted, complex || text[p] == '#') && !CleanPath(text, from, p)
  {
    var j :| from <= j < p && CleanPath(text, from, j) && !CleanAt(text, from, j) && text[j] != '?'
      && (quoted <==> text[j] == '%') && (complex <==> text[j] != '%' || Has(text, j + 1, p, '#'));
    OneMore(text, j + 1, p, '#');
  }

  /** Past the clean path only a fragment sign still counts. */
  lemma TailByte(text: Text, p: nat, r: Line)
    requires p < |text| && UriSoFar(text, r, p) && (r.argsStart == NULL ==> Flagged(r))
    requires !EndsUri(text[p]) && text[p] != NUL && MayEnd(text, p)
    ensures UriSoFar(text, r.(complexUri := r.complexUri || text[p] == '#'), p + 1)
  {
    hide CleanPath, Has, Spoilt, PlusSeen, Extension, FollowsSlash, UriBytes, FirstUnclean;
    BytesMore(text, r.methodEnd, r.uriStart, p);
    OneMore(text, r.uriStart, p, ' ');
    OneMorePlus(text, r.uriStart, p);
    if r.argsStart != NULL {
      OneMore(text, r.argsStart, p, '#');
      NotClean(text, r.uriStart, r.argsStart - 1, p);
    } else {
      SpoiltMore(text, r.uriStart, p, r.quotedUri, r.complexUri);
    }
    OneMore(text, r.uriStart, p, '#');
    UncleanStays(text, r.uriStart, p);
  }

  lemma UriKeeps(text: Text, p: nat, r: Line)
    requires p < |text| && Fits(text, p, r) && r.state == Uri
    ensures VerdictFits(text, p, OnUri(r, p, text[p]))
  {
    hide UriSoFar, HostOk, MethodSoFar, EndUri;
    var ch := text[p];
    if EndsUri(ch) {
      EndUriKeeps(text, p, r, Http09);
    } else if ch != NUL {
      var r' := OnUri(r, p, ch).line;
      Unmoved(text, p, r, r');
      TailByte(text, p, r);
      CopyUri(text, r.(complexUri := r.complexUri || ch == '#'), r', p + 1);
    }
  }

  /** A space changes no extension: it is clean, and neither a dot nor a slash. */
  lemma SpaceExtension(text: Text, from: nat, p: nat)
    requires from <= p < |text| && text[p] == ' '
    ensures Extension(text, from, FirstUnclean(text, from, from, p + 1)) == Extension(text, from, FirstUnclean(text, from, from, p))
  {
    FollowsNext(text, from, p);
    hide CleanPath, Extension, FirstUnclean, FollowsSlash;
    OneMore(text, from, p, ' ');
    if CleanPath(text, from, p) {
      CleanWhole(text, from, p);
      CleanWhole(text, from, p + 1);
    } else {
      UncleanStays(text, from, p);
    }
  }

  /** A space that turned out to belong to the URI. */
  lemma SpaceByte(text: Text, p: nat, r: Line)
    requires p < |text| && UriSoFar(text, r, p) && text[p] == ' '
    ensures UriSoFar(text, r.(spaceInUri := true), p + 1)
  {
    hide CleanPath, Has, Spoilt, PlusSeen, Extension, FollowsSlash, UriBytes, FirstUnclean;
    BytesMore(text, r.methodEnd, r.uriStart, p);
    OneMore(text, r.uriStart, p, ' ');
    OneMorePlus(text, r.uriStart, p);
    SpaceExtension(text, r.uriStart, p);
    if r.argsStart != NULL {
      OneMore(text, r.argsStart, p, '#');
    } else if Flagged(r) {
      SpoiltMore(text, r.uriStart, p, r.quotedUri, r.complexUri);
    }
  }

  lemma {:induction false} UriOverSpaces(text: Text, p: nat, r: Line, end: int)
    requires 0 <= end < p <= |text| && UriSoFar(text, r, end)
    requires forall j | end <= j < p :: text[j] == ' '
    ensures UriSoFar(text, r.(spaceInUri := true), p)
    decreases p - end
  {
    hide UriSoFar;
    SpaceByte(text, end, r);
    if end + 1 < p {
      UriOverSpaces(text, p, r.(spaceInUri := true), end + 1);
    }
  }

  /** Later bytes leave a closed URI alone. */
  lemma ClosedStays(text: Text, p: nat, r: Line, r': Line)
    requires p < |text| && MethodSoFar(text, p, r) && HostOk(text, p, r) && UriClosed(text, p, r)
    requires SameUri(r, r') && r'.uriEnd == r.uriEnd && r'.hostStart == r.hostStart && r'.hostEnd == r.hostEnd
    requires r'.requestStart == r.requestStart && r'.requestEnd == NULL
    ensures MethodSoFar(text, p + 1, r') && HostOk(text, p + 1, r') && UriClosed(text, p + 1, r')
    ensures Ends(text, p, r')
    ensures r.state == AlmostDone && text[p - 1] == CR ==> Ends(text, p, r'.(requestEnd := p - 1))
  {
    hide UriSoFar, HostOk, Token;
    CopyUri(text, r, r', r.uriEnd);
    SameHost(text, r, r', p);
    SameHost(text, r, r'.(requestEnd := p - 1), p);
    CopyUri(text, r, r'.(requestEnd := p - 1), r.uriEnd);
  }

  lemma AfterUriKeeps(text: Text, p: nat, r: Line)
    requires p < |text| && Fits(text, p, r)
    requires r.state == HostHttp09 || r.state == CheckUriHttp09 || r.state == Http09
    ensures VerdictFits(text, p, OnAfterUri(r, p, text[p]))
  {
    hide UriSoFar, HostOk, Token, UriClosed, Ends;
    if OnAfterUri(r, p, text[p]).Advance? || OnAfterUri(r, p, text[p]).Finish? {
      ClosedStays(text, p, r, OnAfterUri(r, p, text[p]).line);
    }
  }

  lemma SpacesAfterUriKeeps(text: Text, p: nat, r: Line)
    requires p < |text| && Fits(text, p, r)
    ensures r.state == CheckUriHttp09 ==> VerdictFits(text, p, OnSpacesAfterUri(r, p, text[p], CheckUri))
    ensures r.state == Http09 ==> VerdictFits(text, p, OnSpacesAfterUri(r, p, text[p], Uri))
  {
    hide UriSoFar, HostOk, MethodSoFar, OnAfterUri;
    if r.state == CheckUriHttp09 || r.state == Http09 {
      AfterUriKeeps(text, p, r);
      BackToUri(text, p, r, if r.state == Http09 then Uri else CheckUri);
    }
  }

  /** Spaces that did not end the URI: the byte after them is part of it again. */
  lemma BackToUri(text: Text, p: nat, r: Line, back: State)
    requires p < |text| && MethodSoFar(text, p, r) && HostOk(text, p, r) && UriClosed(text, p, r) && SpacesSince(text, p, r)
    ensures !EndsUri(text[p]) && text[p] != 'H' ==> InUri(text, p, r.(spaceInUri := true, state := back))
    ensures !FollowsSlash(text, r.uriStart, p)
  {
    hide UriSoFar, Token;
    var r' := r.(spaceInUri := true, state := back);
    UriOverSpaces(text, p, r, r.uriEnd);
    CopyUri(text, r.(spaceInUri := true), r', p);
  }

  predicate InProtocol(s: State) {
    s.HttpH? || s.HttpHT? || s.HttpHTT? || s.HttpHTTP? || s.FirstMajorDigit? || s.MajorDigit?
    || s.FirstMinorDigit? || s.MinorDigit? || s.SpacesAfterDigit? || s.AlmostDone?
  }

  /** The protocol states touch the version alone. */
  predicate SameSlices(r: Line, r': Line) {
    && SameUri(r, r') && r'.uriEnd == r.uriEnd && r'.hostStart == r.hostStart && r'.hostEnd == r.hostEnd
    && r'.requestStart == r.requestStart
  }

  lemma ProtocolSlices(text: Text, p: nat, r: Line)
    requires p < |text| && InProtocol(r.state)
    ensures SlicesKept(text, p, r, Dispatch(text, p, r))
  {
    hide AppendDigit, DigitValue, OnStart, OnMethod, OnSpacesBeforeUri, OnSchema, OnHostStart, OnHost, OnHostEnd,
      OnHostIpLiteral, OnPort, OnAfterUri, OnAfterSlashInUri, OnCheckUri, OnSpacesAfterUri, OnUri,
      OnMajorDigit, OnMinorDigit, OnFirstMajorDigit, OnFirstMinorDigit, OnSpacesAfterDigit, OnAlmostDone;
    DigitSlices(text, p, r, text[p]);
    match r.state
    case HttpH =>
    case HttpHT =>
    case HttpHTT =>
    case HttpHTTP =>
    case FirstMajorDigit =>
    case MajorDigit =>
    case FirstMinorDigit =>
    case MinorDigit =>
    case SpacesAfterDigit =>
    case AlmostDone =>
  }

  predicate SlicesKept(text: Text, p: nat, r: Line, v: Verdict)
    requires p < |text|
  {
    match v
    case Advance(r') => InProtocol(r'.state) && SameSlices(r, r') && r'.requestEnd == r.requestEnd && (r'.state.AlmostDone? ==> text[p] == CR)
    case Finish(r') => SameSlices(r, r') && r'.requestEnd == if r.state == AlmostDone then p - 1 else r.requestEnd
    case Redo(_) => false
    case Reject(_, _) => true
  }

  lemma DigitSlices(text: Text, p: nat, r: Line, ch: Byte)
    requires p < |text| && ch == text[p]
    ensures r.state == FirstMajorDigit ==> SlicesKept(text, p, r, OnFirstMajorDigit(r, ch))
    ensures r.state == MajorDigit ==> SlicesKept(text, p, r, OnMajorDigit(r, ch))
    ensures r.state == FirstMinorDigit ==> SlicesKept(text, p, r, OnFirstMinorDigit(r, ch))
    ensures r.state == MinorDigit ==> SlicesKept(text, p, r, OnMinorDigit(r, ch))
    ensures r.state == SpacesAfterDigit ==> SlicesKept(text, p, r, OnSpacesAfterDigit(r, ch))
    ensures r.state == AlmostDone ==> SlicesKept(text, p, r, OnAlmostDone(r, p, ch))
  {
    hide AppendDigit, DigitValue;
  }

  lemma ProtocolFits(text: Text, p: nat, r: Line)
    requires 0 <= p <= |text| && InProtocol(r.state)
    ensures Fits(text, p, r) <==>
              && MethodSoFar(text, p, r) && HostOk(text, p, r) && UriClosed(text, p, r)
              && (r.state.AlmostDone? ==> text[p - 1] == CR)
  {
    hide UriSoFar, HostOk, Token;
  }

  lemma ProtocolKeeps(text: Text, p: nat, r: Line)
    requires p < |text| && Fits(text, p, r) && InProtocol(r.state)
    ensures VerdictFits(text, p, Dispatch(text, p, r))
  {
    ProtocolFits(text, p, r);
    MethodRequestEnd(text, p, r);
    ProtocolSlices(text, p, r);
    hide Fits, Dispatch, UriSoFar, HostOk, MethodSoFar, UriClosed, Ends;
    match Dispatch(text, p, r)
    case Advance(r') =>
      ClosedStays(text, p, r, r');
      ProtocolFits(text, p + 1, r');
    case Finish(r') => ClosedStays(text, p, r, r'.(requestEnd := NULL));
    case Reject(_, _) =>
  }

  lemma MethodRequestEnd(text: Text, p: nat, r: Line)
    requires p <= |text| && MethodSoFar(text, p, r)
    ensures r.requestEnd == NULL
  {
  }

  lemma DispatchKeeps(text: Text, p: nat, r: Line)
    requires p < |text| && Fits(text, p, r)
    ensures VerdictFits(text, p, Dispatch(text, p, r))
  {
    hide Fits, VerdictFits, OnStart, OnMethod, OnSpacesBeforeUri, OnSchema, Expect,
      OnHostStart, OnHost, OnHostEnd, OnHostIpLiteral, OnPort, OnAfterUri, OnAfterSlashInUri, OnCheckUri, OnSpacesAfterUri, OnUri;
    match r.state
    case Start => StartKeeps(text, p, r);
    case Method => MethodKeeps(text, p, r);
    case SpacesBeforeUri => SpacesBeforeUriKeeps(text, p, r);
    case Schema => SchemaKeeps(text, p, r);
    case SchemaSlash => SchemaKeeps(text, p, r);
    case SchemaSlashSlash => SchemaKeeps(text, p, r);
    case HostStart => HostKeeps(text, p, r);
    case Host => HostKeeps(text, p, r);
    case HostEnd => HostKeeps(text, p, r);
    case HostIpLiteral => HostIpLiteralKeeps(text, p, r);
    case Port => PortKeeps(text, p, r);
    case HostHttp09 => AfterUriKeeps(text, p, r);
    case AfterSlashInUri => AfterSlashInUriKeeps(text, p, r);
    case CheckUri => CheckUriKeeps(text, p, r);
    case CheckUriHttp09 => SpacesAfterUriKeeps(text, p, r);
    case Uri => UriKeeps(text, p, r);
    case Http09 => SpacesAfterUriKeeps(text, p, r);
    case _ => ProtocolKeeps(text, p, r);
  }

  // ---------- whole runs ----------

  /** The slices of a parsed request line that ends just before `pos`. */
  predicate Parsed(text: Text, pos: nat, r: Line)
    requires 0 < pos <= |text|
  {
    && 0 <= r.requestStart <= r.methodEnd && r.methodEnd + 1 < r.uriStart < r.uriEnd <= r.requestEnd < pos
    && Token(text, r.requestStart, r.methodEnd + 1) && text[r.methodEnd + 1] == ' '
    && HostOk(text, pos - 1, r)
    && UriSoFar(text, r, r.uriEnd) && text[r.uriEnd - 1] != ' '
    && text[pos - 1] == LF && (r.requestEnd == pos - 1 || (r.requestEnd == pos - 2 && text[pos - 2] == CR))
  }

  lemma EndsParsed(text: Text, p: nat, r: Line)
    requires p < |text| && Ends(text, p, r) && text[p] == LF
    ensures Parsed(text, p + 1, Conclude(r, p).line)
  {
    hide UriSoFar, Token;
    CopyUri(text, r, Conclude(r, p).line, r.uriEnd);
    assert UriSoFar(text, r, r.uriEnd);
    UriAfterMethod(text, r, r.uriEnd);
  }

  lemma UriAfterMethod(text: Text, r: Line, end: int)
    requires end <= |text| && UriSoFar(text, r, end)
    ensures r.methodEnd + 1 < r.uriStart < end
  {
  }

  /** The invariant over a whole run, from any reachable state and position. */
  lemma {:induction false} RunFits(text: Text, p: nat, r: Line)
    requires p <= |text| && Fits(text, p, r)
    ensures match Run(text, p, r)
            case Incomplete(r') => Fits(text, |text|, r')
            case Complete(_, r', pos) => 0 < pos <= |text| && Parsed(text, pos, r')
            case Rejected(_, _) => true
    decreases |text| - p, if MayRedo(r.state) then 1 else 0
  {
    hide Dispatch, Run, Fits, Ends, Conclude, Parsed;
    if p < |text| {
      DispatchKeeps(text, p, r);
      DispatchRedo(text, p, r);
      RunStep(text, p, r);
      match Dispatch(text, p, r)
      case Advance(line) => RunFits(text, p + 1, line);
      case Redo(line) => RunFits(text, p, line);
      case Finish(line) =>
        FinishAtLineFeed(text, p, r);
        EndsParsed(text, p, line);
      case Reject(_, _) =>
    } else {
      RunEnd(text, r);
    }
  }

  lemma FromStart(text: Text, code: int, r: Line, pos: nat)
    requires Run(text, 0, ZERO) == Complete(code, r, pos)
    ensures 0 < pos <= |text| && Parsed(text, pos, r)
  {
    hide Run, Parsed;
    RunFits(text, 0, ZERO);
  }

  // ---------- what a completed line promises ----------

  /** The positions are in order, the URI begins with a slash and ends in no space, and no line end is inside. */
  lemma SliceOrder(text: Text, code: int, r: Line, pos: nat)
    requires Run(text, 0, ZERO) == Complete(code, r, pos)
    ensures 0 <= r.requestStart <= r.methodEnd < r.uriStart < r.uriEnd <= r.requestEnd < pos <= |text|
    ensures Token(text, r.requestStart, r.methodEnd + 1) && text[r.methodEnd + 1] == ' '
    ensures text[r.uriStart] == '/' && text[r.uriEnd - 1] != ' '
    ensures forall j | r.uriStart <= j < r.uriEnd :: text[j] != CR && text[j] != LF && text[j] != NUL
    ensures forall j | r.uriStart < j < r.uriEnd && text[j] == 'H' :: text[j - 1] != ' '
    ensures text[pos - 1] == LF && (r.requestEnd == pos - 1 || (r.requestEnd == pos - 2 && text[pos - 2] == CR))
  {
    hide Run, CleanPath, Has, Extension, Spoilt, PlusSeen;
    RunFits(text, 0, ZERO);
  }

  /** The fast path: neither flag is set exactly when the path needs no normalisation and the arguments hold no fragment. */
  lemma FlagsAreExact(text: Text, code: int, r: Line, pos: nat)
    requires Run(text, 0, ZERO) == Complete(code, r, pos)
    ensures 0 <= r.uriStart < PathEnd(r, r.uriEnd) <= r.uriEnd <= |text|
    ensures !Flagged(r) <==>
              && CleanPath(text, r.uriStart, PathEnd(r, r.uriEnd))
              && (r.argsStart != NULL ==> !Has(text, r.argsStart, r.uriEnd, '#'))
    ensures r.spaceInUri <==> Has(text, r.uriStart, r.uriEnd, ' ')
  {
    hide Run, Has, Extension, Token, HostOk, PlusSeen;
    FromStart(text, code, r, pos);
  }

  /** Each flag on its own, and the arguments: the first byte that is not clean decides. */
  lemma FirstUncleanDecides(text: Text, code: int, r: Line, pos: nat)
    requires Run(text, 0, ZERO) == Complete(code, r, pos)
    ensures 0 <= r.uriStart < r.uriEnd <= |text|
    ensures var f := FirstUnclean(text, r.uriStart, r.uriStart, r.uriEnd);
            && (r.argsStart == if f < r.uriEnd && text[f] == '?' then f + 1 else NULL)
            && (r.quotedUri <==> f < r.uriEnd && text[f] == '%')
            && (r.complexUri <==> f < r.uriEnd && ((text[f] != '%' && text[f] != '?') || Has(text, f + 1, r.uriEnd, '#')))
            && (r.plusInUri <==> Has(text, r.uriStart, f, '+'))
  {
    FromStart(text, code, r, pos);
    hide *;
    UriDecides(text, r, r.uriEnd) by {
      ParsedUri(text, pos, r);
    }
  }

  lemma ParsedUri(text: Text, pos: nat, r: Line)
    requires 0 < pos <= |text| && Parsed(text, pos, r)
    ensures r.uriEnd <= |text| && UriSoFar(text, r, r.uriEnd)
  {
    hide UriSoFar;
  }

  lemma UriDecides(text: Text, r: Line, end: int)
    requires end <= |text| && UriSoFar(text, r, end)
    ensures 0 <= r.uriStart < end
    ensures var f := FirstUnclean(text, r.uriStart, r.uriStart, end);
            && (r.argsStart == if f < end && text[f] == '?' then f + 1 else NULL)
            && (r.quotedUri <==> f < end && text[f] == '%')
            && (r.complexUri <==> f < end && ((text[f] != '%' && text[f] != '?') || Has(text, f + 1, end, '#')))
            && (r.plusInUri <==> Has(text, r.uriStart, f, '+'))
  {
    hide Extension, ExtensionFits, FirstUnclean, CleanPath, Has, PlusSeen, Spoilt, FlagsFit;
    var _ := FlagsDecide(text, r.uriStart, r.argsStart, end, r.quotedUri, r.complexUri);
    PlusBefore(text, r.uriStart, end);
  }

  lemma FlagsDecide(text: Text, from: nat, argsStart: int, end: int, quoted: bool, complex: bool) returns (f: int)
    requires from <= end <= |text| && ArgsFit(text, from, argsStart, end) && FlagsFit(text, from, argsStart, end, quoted, complex)
    ensures f == FirstUnclean(text, from, from, end)
    ensures argsStart == if f < end && text[f] == '?' then f + 1 else NULL
    ensures quoted <==> f < end && text[f] == '%'
    ensures complex <==> f < end && ((text[f] != '%' && text[f] != '?') || Has(text, f + 1, end, '#'))
  {
    hide FollowsSlash, FirstUnclean, CleanPath, Has;
    if argsStart != NULL {
      f := argsStart - 1;
      assert !CleanAt(text, from, f);
    } else if quoted || complex {
      f :| from <= f < end && CleanPath(text, from, f) && !CleanAt(text, from, f) && text[f] != '?'
        && (quoted <==> text[f] == '%') && (complex <==> text[f] != '%' || Has(text, f + 1, end, '#'));
    } else {
      f := end;
    }
    FirstUncleanIs(text, from, from, f, end);
  }

  lemma PlusBefore(text: Text, from: int, end: int)
    requires 0 <= from <= end <= |text|
    ensures PlusSeen(text, from, end) <==> Has(text, from, FirstUnclean(text, from, from, end), '+')
  {
    var f := FirstUnclean(text, from, from, end);
    assert CleanPath(text, from, from);
    if Has(text, from, f, '+') {
      var j :| from <= j < f && text[j] == '+';
      assert text[j] == '+' && CleanPath(text, from, j);
    }
    if PlusSeen(text, from, end) {
      var j :| from <= j < end && text[j] == '+' && CleanPath(text, from, j);
      assert CleanPath(text, from, j + 1);
      FirstUncleanAfter(text, from, from, j + 1, end);
    }
  }

  /** The extension is that of the clean part of the path, whatever follows: it begins after the last dot of its last segment. */
  lemma ExtensionInPath(text: Text, code: int, r: Line, pos: nat)
    requires Run(text, 0, ZERO) == Complete(code, r, pos)
    ensures 0 <= r.uriStart < r.uriEnd <= |text|
    ensures r.uriExt == Extension(text, r.uriStart, FirstUnclean(text, r.uriStart, r.uriStart, r.uriEnd))
    ensures r.uriStart < PathEnd(r, r.uriEnd) <= r.uriEnd
    ensures r.uriExt != NULL ==> r.uriStart < r.uriExt <= PathEnd(r, r.uriEnd) && text[r.uriExt - 1] == '.'
    ensures CleanPath(text, r.uriStart, PathEnd(r, r.uriEnd)) ==> r.uriExt == Extension(text, r.uriStart, PathEnd(r, r.uriEnd))
  {
    FromStart(text, code, r, pos);
    ParsedUri(text, pos, r);
    hide *;
    UriExtension(text, r, r.uriEnd);
  }

  lemma UriExtension(text: Text, r: Line, end: int)
    requires end <= |text| && UriSoFar(text, r, end)
    ensures 0 <= r.uriStart < PathEnd(r, end) <= end
    ensures r.uriExt == Extension(text, r.uriStart, FirstUnclean(text, r.uriStart, r.uriStart, end))
    ensures r.uriExt != NULL ==> r.uriStart < r.uriExt <= PathEnd(r, end) && text[r.uriExt - 1] == '.'
    ensures CleanPath(text, r.uriStart, PathEnd(r, end)) ==> r.uriExt == Extension(text, r.uriStart, PathEnd(r, end))
  {
    hide CleanPath, Has, PlusSeen, Spoilt, Extension, FirstUnclean, FollowsSlash;
    if r.argsStart != NULL {
      FirstUncleanIs(text, r.uriStart, r.uriStart, r.argsStart - 1, end);
    } else if CleanPath(text, r.uriStart, end) {
      CleanWhole(text, r.uriStart, end);
    }
  }

  /** The host slice, when there is one, is a registered name or a bracketed literal. */
  lemma HostSliceIsHostName(text: Text, code: int, r: Line, pos: nat)
    requires Run(text, 0, ZERO) == Complete(code, r, pos)
    ensures pos <= |text|
    ensures || (r.hostStart == NULL && r.hostEnd == NULL)
            || (0 <= r.hostStart <= r.hostEnd < pos && HostName(text, r.hostStart, r.hostEnd))
  {
    hide Run, UriSoFar, Token, HostName;
    RunFits(text, 0, ZERO);
  }
}
