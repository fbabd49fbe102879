/**
 os_http_validate_host: cutting a host from its port and bringing it to one form.

 `Canonical` says outright what an accepted host becomes; `HostString.Validate` is the
 scanning loop. Lengths are size_t, so the predecessor of 0 is 2^64 - 1.
 */
module HostValidation {
  import opened Common
  import opened RequestLine
  import RequestSlices

  const SIZE_MAX: nat := 0xffff_ffff_ffff_ffff

  function Before(n: nat): nat {
    if n == 0 then SIZE_MAX else n - 1
  }

  predicate IsUpper(ch: Byte) {
    'A' <= ch <= 'Z'
  }

  function LowerByte(ch: Byte): (l: Byte)
    ensures SameLetter(l, ch) && !IsUpper(l)
  {
    if IsUpper(ch) then (ch as int + 0x20) as char else ch
  }

  function Lower(s: Text): (t: Text)
    ensures |t| == |s| && forall j | 0 <= j < |s| :: t[j] == LowerByte(s[j])
  {
    seq(|s|, j requires 0 <= j < |s| => LowerByte(s[j]))
  }

  /** The lower-case form is the same text up to case, and it is the same for two texts exactly when they are. */
  lemma LowerExactly(s: Text, t: Text)
    ensures SameButCase(Lower(s), s)
    ensures Lower(s) == Lower(t) <==> SameButCase(s, t)
  {
    if Lower(s) == Lower(t) {
      forall i | 0 <= i < |s| ensures SameLetter(s[i], t[i]) {
        assert Lower(s)[i] == Lower(t)[i];
        SameLower(s[i], t[i]);
      }
    } else if SameButCase(s, t) {
      forall i | 0 <= i < |s| ensures Lower(s)[i] == Lower(t)[i] {
        SameLower(s[i], t[i]);
      }
    }
  }

  lemma SameLower(a: Byte, b: Byte)
    ensures LowerByte(a) == LowerByte(b) <==> SameLetter(a, b)
  {
  }

  // ---------- the specification ----------

  predicate HasUpper(s: Text) {
    exists ch | ch in s :: IsUpper(ch)
  }

  predicate AdjacentDots(h: Text) {
    exists j | 0 < j < |h| :: h[j] == '.' && h[j - 1] == '.'
  }

  /** The first place of the byte, or the length. */
  function Find(h: Text, ch: Byte): (k: nat)
    ensures k <= |h| && (forall j | 0 <= j < k :: h[j] != ch) && (k < |h| ==> h[k] == ch)
  {
    if h == [] || h[0] == ch then 0 else 1 + Find(h[1..], ch)
  }

  /** The last dot, or the length. */
  function LastDot(h: Text): (k: nat)
    ensures k <= |h| && (k < |h| ==> h[k] == '.')
    ensures forall j | 0 <= j < |h| && (k < j || k == |h|) :: h[j] != '.'
  {
    if h == [] then 0
    else if h[|h| - 1] == '.' then |h| - 1
    else
      var k := LastDot(h[..|h| - 1]);
      if k == |h| - 1 then |h| else k
  }

  /** Where the port begins: after the bracket of a literal, or at the first colon. */
  function NameEnd(h: Text): (end: nat)
    ensures end <= |h|
  {
    if h != [] && h[0] == '[' then
      var k := Find(h, ']');
      if k < |h| then k + 1 else |h|
    else Find(h, ':')
  }

  /** The name's length: a dot is dropped from its end if no dot follows later. */
  function NameLength(h: Text): (n: nat)
    ensures n <= NameEnd(h)
  {
    var end := NameEnd(h);
    if end > 0 && LastDot(h) == end - 1 then end - 1 else end
  }

  predicate Acceptable(h: Text) {
    NUL !in h && '/' !in h && !AdjacentDots(h) && NameLength(h) > 0
  }

  function Canonical(h: Text): Option<Text> {
    if Acceptable(h) then Some(Lower(h[..NameLength(h)])) else None
  }

  // ---------- the loop ----------

  datatype ScanState = Usual | Literal | Rest

  /** What the scan knows after the first i bytes. */
  ghost predicate Scanned(h: Text, i: nat, state: ScanState, dotPos: nat, hostLen: nat)
    requires i <= |h|
  {
    && (i == 0 ==> state == Usual)
    && dotPos == (if LastDot(h[..i]) == i then |h| else LastDot(h[..i]))
    && (match state
        case Usual => hostLen == |h| && ':' !in h[..i] && (i > 0 ==> h[0] != '[')
        case Literal => hostLen == |h| && i > 0 && h[0] == '[' && ']' !in h[..i]
        case Rest => hostLen == NameEnd(h))
  }

  lemma ScanDot(h: Text, i: nat)
    requires i < |h|
    ensures LastDot(h[..i + 1]) == if h[i] == '.' then i else if LastDot(h[..i]) == i then i + 1 else LastDot(h[..i])
  {
    assert h[..i + 1][..i] == h[..i];
  }

  /** One byte that is neither NUL nor a path separator. */
  lemma ScanByte(h: Text, i: nat, state: ScanState, dotPos: nat, hostLen: nat, state': ScanState, hostLen': nat)
    requires i < |h| && Scanned(h, i, state, dotPos, hostLen)
    requires state' == if h[i] == ':' && state == Usual then Rest
                       else if h[i] == '[' && i == 0 then Literal
                       else if h[i] == ']' && state == Literal then Rest
                       else state
    requires hostLen' == if state' == Rest && state == Usual then i else if state' == Rest && state == Literal then i + 1 else hostLen
    ensures Scanned(h, i + 1, state', if h[i] == '.' then i else dotPos, hostLen')
  {
    ScanDot(h, i);
    assert h[..i + 1] == h[..i] + [h[i]];
    if state' == Rest && state == Usual {
      assert h[0] != '[';
      assert forall j | 0 <= j < i :: h[j] == h[..i][j];
      assert Find(h, ':') == i;
    } else if state' == Rest && state == Literal {
      assert forall j | 0 <= j < i :: h[j] == h[..i][j];
      assert Find(h, ']') == i;
    }
  }

  /** At the end of the scan the cut is the specification's. */
  lemma ScanEnds(h: Text, state: ScanState, dotPos: nat, hostLen: nat)
    requires Scanned(h, |h|, state, dotPos, hostLen) && |h| < SIZE_MAX
    ensures dotPos == LastDot(h) && hostLen == NameEnd(h)
    ensures NameLength(h) == if dotPos == Before(hostLen) then hostLen - 1 else hostLen
  {
    assert h[..|h|] == h;
    if state == Usual {
      assert Find(h, ':') == |h|;
    } else if state == Literal {
      assert Find(h, ']') == |h|;
    }
  }

  /** Nothing in the first i bytes is refused, and `upper` says whether a capital is among them. */
  ghost predicate Tolerated(h: Text, i: nat, upper: bool)
    requires i <= |h|
  {
    NUL !in h[..i] && '/' !in h[..i] && !AdjacentDots(h[..i]) && (upper <==> HasUpper(h[..i]))
  }

  lemma TolerateByte(h: Text, i: nat, upper: bool, upper': bool)
    requires i < |h| && Tolerated(h, i, upper) && h[i] != NUL && h[i] != '/' && !(i > 0 && h[i] == '.' && h[i - 1] == '.')
    requires upper' == if h[i] == '.' || h[i] == ':' || h[i] == '[' || h[i] == ']' then upper else upper || IsUpper(h[i])
    ensures Tolerated(h, i + 1, upper')
  {
    var s, t := h[..i], h[..i + 1];
    assert t == s + [h[i]];
    forall j | 0 < j < |t| ensures t[j] != '.' || t[j - 1] != '.' {
      if j < i {
        assert t[j] == s[j] && t[j - 1] == s[j - 1];
      }
    }
  }

  lemma ToleratedAll(h: Text, upper: bool)
    requires Tolerated(h, |h|, upper)
    ensures NUL !in h && '/' !in h && !AdjacentDots(h) && (upper <==> HasUpper(h))
  {
    assert h[..|h|] == h;
  }

  /** The position of the last dot tells whether the byte before i is one. */
  lemma DotBefore(h: Text, i: nat, state: ScanState, dotPos: nat, hostLen: nat)
    requires i < |h| < SIZE_MAX && Scanned(h, i, state, dotPos, hostLen)
    ensures dotPos == Before(i) <==> i > 0 && h[i - 1] == '.'
  {
    assert i > 0 ==> h[..i][i - 1] == h[i - 1];
  }

  /** A refusal in the middle of the text is a refusal of the whole. */
  lemma RefusedEarly(h: Text, i: nat)
    requires i < |h| && (h[i] == NUL || h[i] == '/' || (i > 0 && h[i] == '.' && h[i - 1] == '.'))
    ensures Canonical(h) == None
  {
  }

  /** os_strlow */
  method StrLow(dst: array<Byte>, src: array<Byte>, from: nat, n: nat)
    requires n <= dst.Length && from + n <= src.Length && dst != src
    modifies dst
    ensures dst[..n] == Lower(src[from..from + n])
    ensures SameButCase(dst[..n], src[from..from + n]) && forall j | 0 <= j < n :: !IsUpper(dst[j])
  {
    var k := 0;
    while k < n
      invariant k <= n && dst[..k] == Lower(src[from..from + k])
    {
      dst[k] := LowerByte(src[from + k]);
      k := k + 1;
      assert dst[..k] == dst[..k - 1] + [LowerByte(src[from + k - 1])];
    }
  }

  /** What a scan that refused nothing leaves open: whether anything is left of the name. */
  lemma Accepted(h: Text, n: nat)
    requires NUL !in h && '/' !in h && !AdjacentDots(h) && n == NameLength(h)
    ensures n <= |h| && Canonical(h) == if n > 0 then Some(Lower(h[..n])) else None
  {
  }

  /** The loop of os_http_validate_host over the bytes, up to the cut. */
  method Scan(h: Text) returns (declined: bool, hostLen: nat, upper: bool)
    requires |h| < SIZE_MAX
    ensures if declined then Canonical(h) == None
            else NUL !in h && '/' !in h && !AdjacentDots(h) && hostLen == NameLength(h) && (upper <==> HasUpper(h))
  {
    var dotPos := |h|;
    declined, hostLen, upper := false, |h|, false;
    var state := Usual;
    var i := 0;
    hide *;
    while i < |h|
      invariant i <= |h| && 0 <= dotPos && 0 <= hostLen && Scanned(h, i, state, dotPos, hostLen)
      invariant Tolerated(h, i, upper)
    {
      var ch := h[i];
      ghost var state0, hostLen0, upper0 := state, hostLen, upper;
      if ch == '.' {
        DotBefore(h, i, state, dotPos, hostLen);
        if dotPos == Before(i) {
          RefusedEarly(h, i);
          declined := true;
          return;
        }
      } else if ch == ':' {
        if state == Usual {
          hostLen := i;
          state := Rest;
        }
      } else if ch == '[' {
        if i == 0 {
          state := Literal;
        }
      } else if ch == ']' {
        if state == Literal {
          hostLen := i + 1;
          state := Rest;
        }
      } else if ch == NUL || ch == '/' {
        RefusedEarly(h, i);
        declined := true;
        return;
      } else if IsUpper(ch) {
        upper := true;
      }
      ScanByte(h, i, state0, dotPos, hostLen0, state, hostLen);
      TolerateByte(h, i, upper0, upper);
      if ch == '.' {
        dotPos := i;
      }
      i := i + 1;
    }
    ScanEnds(h, state, dotPos, hostLen);
    ToleratedAll(h, upper);
    if dotPos == Before(hostLen) {
      hostLen := hostLen - 1;
    }
  }

  /** A counted string: len bytes of some memory, from an offset on. */
  class HostString {
    var data: array<Byte>
    var from: nat
    var len: nat

    ghost predicate Valid()
      reads this
    {
      from + len <= data.Length && len < SIZE_MAX
    }

    ghost function Bytes(): Text
      requires Valid()
      reads this, data
    {
      data[from..from + len]
    }

    constructor (data: array<Byte>, from: nat, len: nat)
      requires from + len <= data.Length && len < SIZE_MAX
      ensures Valid() && Bytes() == data[from..from + len] && this.data == data
    {
      this.data, this.from, this.len := data, from, len;
    }

    /** os_http_validate_host. The bytes it was given are never written: a lowered name gets its own memory. */
    method Validate(alloc: bool) returns (rc: int)
      requires Valid()
      modifies this
      ensures Valid()
      ensures match Canonical(old(Bytes()))
              case None => rc == OS_DECLINED && Bytes() == old(Bytes()) && data == old(data)
              case Some(name) => rc == OS_OK && Bytes() == name
      ensures rc == OS_OK ==> if alloc || HasUpper(old(Bytes())) then fresh(data) else data == old(data)
      ensures old(data)[..] == old(data[..])
    {
      hide Canonical, Acceptable, HasUpper, AdjacentDots, NameLength, Lower;
      var declined, hostLen, upper := Scan(data[from..from + len]);
      if declined {
        return OS_DECLINED;
      }
      Accepted(Bytes(), hostLen);
      if hostLen == 0 {
        return OS_DECLINED;
      }
      if !upper {
        LowerPrefix(Bytes(), hostLen);
      }
      Shorten(hostLen, alloc || upper);
      rc := OS_OK;
    }

    /** The accepted name: its length, and lower-case bytes of its own when they had to be copied. */
    method Shorten(n: nat, copy: bool)
      requires Valid() && n <= len && (copy || Lower(Bytes()[..n]) == Bytes()[..n])
      modifies this
      ensures Valid() && Bytes() == Lower(old(Bytes())[..n])
      ensures if copy then fresh(data) else data == old(data)
      ensures old(data)[..] == old(data[..])
    {
      assert Bytes()[..n] == data[from..from + n];
      if copy {
        var lowered := new Byte[n];
        StrLow(lowered, data, from, n);
        data, from := lowered, 0;
      }
      len := n;
    }
  }

  lemma LowerPrefix(s: Text, n: nat)
    requires n <= |s| && !HasUpper(s)
    ensures Lower(s[..n]) == s[..n]
  {
    forall j | 0 <= j < n ensures Lower(s[..n])[j] == s[j] {
      assert s[j] in s;
    }
  }

  // ---------- what an accepted name is ----------

  lemma LowerKeeps(s: Text, n: nat)
    requires n <= |s|
    ensures !HasUpper(Lower(s[..n]))
    ensures forall j | 0 <= j < n :: Lower(s[..n])[j] == LowerByte(s[j])
    ensures !AdjacentDots(s) ==> !AdjacentDots(Lower(s[..n]))
  {
    var t := Lower(s[..n]);
    forall j | 0 <= j < n ensures t[j] == LowerByte(s[j]) {
    }
    if AdjacentDots(t) {
      var j :| 0 < j < |t| && t[j] == '.' && t[j - 1] == '.';
      assert s[j] == '.' && s[j - 1] == '.';
    }
  }

  /** An accepted name is the host up to its cut, in lower case. */
  lemma AcceptedIsHost(h: Text, t: Text)
    requires Canonical(h) == Some(t)
    ensures NameLength(h) <= |h| && SameButCase(t, h[..NameLength(h)]) && !HasUpper(t)
  {
    LowerExactly(h[..NameLength(h)], h);
    LowerKeeps(h, NameLength(h));
  }

  lemma SameSpecial(a: Byte, b: Byte)
    requires SameLetter(a, b) && LetterPlace(a) == -1
    ensures a == b
  {
  }

  /** Where two hosts that are the same up to case have a byte that is no letter. */
  lemma SameMarks(h: Text, g: Text, ch: Byte)
    requires SameButCase(h, g) && LetterPlace(ch) == -1
    ensures forall j | 0 <= j < |h| :: h[j] == ch <==> g[j] == ch
    ensures ch in h <==> ch in g
    ensures Find(h, ch) == Find(g, ch)
  {
    forall j | 0 <= j < |h| ensures h[j] == ch <==> g[j] == ch {
      assert SameLetter(h[j], g[j]);
    }
    if ch in h {
      var j :| 0 <= j < |h| && h[j] == ch;
      assert g[j] == ch;
    }
    if ch in g {
      var j :| 0 <= j < |g| && g[j] == ch;
      assert h[j] == ch;
    }
    FindIs(g, ch, Find(h, ch));
  }

  lemma SameLastDot(h: Text, g: Text)
    requires SameButCase(h, g)
    ensures LastDot(h) == LastDot(g) && (AdjacentDots(h) <==> AdjacentDots(g))
  {
    SameMarks(h, g, '.');
    if LastDot(h) < |h| {
      LastDotIs(g, LastDot(h));
    }
    if AdjacentDots(h) {
      var j :| 0 < j < |h| && h[j] == '.' && h[j - 1] == '.';
      assert g[j] == '.' && g[j - 1] == '.';
    }
    if AdjacentDots(g) {
      var j :| 0 < j < |g| && g[j] == '.' && g[j - 1] == '.';
      assert h[j] == '.' && h[j - 1] == '.';
    }
  }

  lemma SameCut(h: Text, g: Text)
    requires SameButCase(h, g)
    ensures NameLength(h) == NameLength(g) <= |h|
  {
    SameMarks(h, g, '[');
    SameMarks(h, g, ']');
    SameMarks(h, g, ':');
    SameLastDot(h, g);
    hide AdjacentDots, LastDot, Find, SameLetter;
  }

  /** Two hosts that are the same up to case have the same name, or both have none. */
  lemma CanonicalIgnoresCase(h: Text, g: Text)
    requires SameButCase(h, g)
    ensures Canonical(h) == Canonical(g)
  {
    SameMarks(h, g, NUL);
    SameMarks(h, g, '/');
    SameCut(h, g);
    SameLastDot(h, g);
    hide AdjacentDots, NameLength, SameLetter, Lower;
    var n := NameLength(h);
    LowerExactly(h[..n], g[..n]);
  }

  /** A host is declined exactly for a NUL, a slash, two dots in a row, or when nothing is left of it. */
  lemma DeclinedExactly(h: Text)
    ensures Canonical(h) == None <==>
              || NUL in h || '/' in h || AdjacentDots(h) || h == "" || h[0] == ':'
              || (h[0] == '.' && (|h| == 1 || h[1] == ':') && '.' !in h[1..])
  {
    hide AdjacentDots;
    if h != [] && h[0] == '.' {
      if |h| == 1 || h[1] == ':' {
        FindIs(h, ':', 1);
        if '.' in h[1..] {
          var j :| 0 <= j < |h[1..]| && h[1..][j] == '.';
          assert h[j + 1] == '.' && LastDot(h) != 0;
        } else {
          assert forall j | 0 < j < |h| :: h[j] == h[1..][j - 1];
          LastDotIs(h, 0);
        }
      } else {
        assert h[1] != ':' && Find(h, ':') != 1;
      }
    }
  }

  /** A name that no dot ends and nothing disqualifies stays whole up to its cut. */
  lemma CutIs(h: Text, n: nat)
    requires 0 < n <= |h| && NameEnd(h) == n && h[n - 1] != '.' && NUL !in h && '/' !in h && !AdjacentDots(h)
    ensures Canonical(h) == Some(Lower(h[..n]))
  {
    hide AdjacentDots;
  }

  lemma PortNameEnd(name: Text, port: Text)
    requires name != [] && RequestSlices.HostName(name, 0, |name|)
    ensures NameEnd(name + ":" + port) == |name| == NameEnd(name) && NUL !in name && '/' !in name
  {
    var h := name + ":" + port;
    assert name[0..|name|] == name;
    ParserHostEnd(name, 0, |name|);
    hide RequestSlices.HostName;
    assert forall j | 0 <= j < |name| :: h[j] == name[j];
    if name[0] == '[' {
      FindIs(h, ']', Find(name, ']'));
    } else {
      FindIs(h, ':', |name|);
    }
  }

  lemma DotsOfPrefix(name: Text, rest: Text)
    requires !AdjacentDots(name + rest)
    ensures !AdjacentDots(name)
  {
    var h := name + rest;
    forall j | 0 < j < |name| ensures name[j] != '.' || name[j - 1] != '.' {
      assert h[j] == name[j] && h[j - 1] == name[j - 1];
    }
  }

  /** A port is cut off: whatever follows the colon after a name, the name is what is left. */
  lemma PortIsCut(name: Text, port: Text)
    requires name != [] && RequestSlices.HostName(name, 0, |name|) && name[|name| - 1] != '.'
    requires NUL !in port && '/' !in port && !AdjacentDots(name + ":" + port)
    ensures Canonical(name + ":" + port) == Some(Lower(name)) == Canonical(name)
  {
    var h := name + ":" + port;
    PortNameEnd(name, port);
    assert h == name + (":" + port);
    DotsOfPrefix(name, ":" + port);
    assert h[..|name|] == name && name[..|name|] == name;
    hide RequestSlices.HostName, AdjacentDots, NameEnd, Canonical, Lower;
    CutIs(h, |name|);
    CutIs(name, |name|);
  }

  /** An accepted name is not empty, has no upper-case byte, no NUL, no slash, no empty label and, outside a literal, no port. */
  lemma AcceptedName(h: Text, t: Text)
    requires Canonical(h) == Some(t)
    ensures t != [] && !HasUpper(t) && NUL !in t && '/' !in t && !AdjacentDots(t)
    ensures h[0] != '[' ==> ':' !in t
  {
    hide AdjacentDots, HasUpper;
    LowerKeeps(h, NameLength(h));
    forall j | 0 <= j < |t| ensures t[j] != NUL && t[j] != '/' && (h[0] != '[' ==> t[j] != ':') {
      assert h[j] in h && t[j] == LowerByte(h[j]);
    }
  }

  /** A dot stays at the end exactly when the scan saw another one after the name. */
  lemma TrailingDotExactly(h: Text, t: Text)
    requires Canonical(h) == Some(t)
    ensures NameEnd(h) > 0
    ensures t != [] && (t[|t| - 1] == '.' <==> h[NameEnd(h) - 1] == '.' && '.' in h[NameEnd(h)..])
  {
    var end, n := NameEnd(h), NameLength(h);
    LowerKeeps(h, n);
    assert t[n - 1] == LowerByte(h[n - 1]);
    if n < end {
      assert h[end - 1] == '.';
      assert h[n] == '.' && !(h[n] == '.' && h[n - 1] == '.');
      forall j | end <= j < |h| ensures h[j] != '.' {
      }
    } else if h[end - 1] == '.' {
      assert h[end..][LastDot(h) - end] == '.';
    }
  }

  /** The cut takes nothing from a name that was already cut. */
  lemma NameEndOfName(h: Text, t: Text)
    requires Canonical(h) == Some(t)
    ensures NameEnd(t) == |t|
  {
    hide AdjacentDots, HasUpper;
    var n := NameLength(h);
    LowerKeeps(h, n);
    assert t[0] == LowerByte(h[0]);
    if h[0] == '[' {
      var k := Find(h, ']');
      forall j | 0 <= j < n && j < k ensures t[j] != ']' {
        assert t[j] == LowerByte(h[j]);
      }
      if k < |h| {
        assert LastDot(h) != k;
        assert t[k] == LowerByte(h[k]);
        FindIs(t, ']', k);
      } else {
        FindIs(t, ']', |t|);
      }
    } else {
      forall j | 0 <= j < n ensures t[j] != ':' {
        assert t[j] == LowerByte(h[j]);
      }
      FindIs(t, ':', |t|);
    }
  }

  lemma FindIs(h: Text, ch: Byte, k: nat)
    requires k <= |h| && (forall j | 0 <= j < k :: h[j] != ch) && (k < |h| ==> h[k] == ch)
    ensures Find(h, ch) == k
  {
    var f := Find(h, ch);
    assert f < |h| ==> h[f] == ch;
  }

  /** Validating the result again changes nothing, exactly when it has no trailing dot. */
  lemma IdempotentExactly(h: Text, t: Text)
    requires Canonical(h) == Some(t)
    ensures t != [] && (Canonical(t) == Some(t) <==> t[|t| - 1] != '.')
  {
    AcceptedName(h, t);
    NameEndOfName(h, t);
    hide AdjacentDots;
    LowerPrefix(t, |t|);
    assert t[..|t|] == t;
    if t[|t| - 1] == '.' {
      assert NameLength(t) == |t| - 1;
    } else {
      assert NameLength(t) == |t|;
    }
  }

  /** A host whose port has a dot keeps its own trailing dot, and loses it the second time. */
  lemma KeepsTrailingDot()
    ensures Canonical("a.:8.") == Some("a.") && Canonical("a.") == Some("a") && Canonical("a.:8") == Some("a")
  {
    var h: Text := "a.:8.";
    FindIs(h, ':', 2);
    LastDotIs(h, 4);
    assert !AdjacentDots(h);
    assert h[..2] == "a." && Lower("a.") == "a.";
    var g: Text := "a.";
    FindIs(g, ':', 2);
    LastDotIs(g, 1);
    assert !AdjacentDots(g);
    assert g[..1] == "a" && Lower("a") == "a";
    var f: Text := "a.:8";
    FindIs(f, ':', 2);
    LastDotIs(f, 1);
    assert !AdjacentDots(f);
    assert f[..1] == "a";
  }

  lemma LastDotIs(h: Text, k: nat)
    requires k < |h| && h[k] == '.' && forall j | k < j < |h| :: h[j] != '.'
    ensures LastDot(h) == k
  {
  }

  // ---------- the hosts the parser finds ----------

  /** A registered name or a literal has no port: it is cut nowhere. */
  lemma ParserHostEnd(text: Text, from: nat, end: nat)
    requires from <= end <= |text| && RequestSlices.HostName(text, from, end)
    ensures NameEnd(text[from..end]) == |text[from..end]|
    ensures NUL !in text[from..end] && '/' !in text[from..end]
  {
    var h := text[from..end];
    forall j | 0 <= j < |h| ensures h[j] != NUL && h[j] != '/' {
      assert h[j] == text[from + j];
    }
    if h != [] && h[0] == '[' {
      assert RequestSlices.Literal(text, from, end);
      forall j | 0 <= j < |h| - 1 ensures h[j] != ']' {
        assert h[j] == text[from + j];
      }
      FindIs(h, ']', |h| - 1);
    } else {
      forall j | 0 <= j < |h| ensures h[j] != ':' {
        assert h[j] == text[from + j];
      }
      FindIs(h, ':', |h|);
    }
  }

  /** For a host the parser found: when it is accepted, and that its canonical form is final. */
  lemma ParserHost(text: Text, from: nat, end: nat)
    requires from <= end <= |text| && RequestSlices.HostName(text, from, end)
    ensures var h := text[from..end];
            match Canonical(h)
            case None => h == "" || h == "." || AdjacentDots(h)
            case Some(t) =>
              && h != "" && h != "." && !AdjacentDots(h)
              && t != [] && t[|t| - 1] != '.' && Canonical(t) == Some(t)
              && !HasUpper(t) && SameButCase(t, if h[|h| - 1] == '.' then h[..|h| - 1] else h)
  {
    hide RequestSlices.HostName;
    var h := text[from..end];
    ParserHostEnd(text, from, end);
    match Canonical(h)
    case None =>
    case Some(t) =>
      TrailingDotExactly(h, t);
      IdempotentExactly(h, t);
      AcceptedIsHost(h, t);
      assert h[..|h|] == h && h[|h|..] == [];
  }

  /** The host of every accepted request line, from the first byte received. */
  lemma RequestHost(text: Text, code: int, r: Line, pos: nat)
    requires Run(text, 0, ZERO) == Complete(code, r, pos) && r.hostStart != NULL && r.hostEnd != NULL
    ensures 0 <= r.hostStart <= r.hostEnd <= |text|
    ensures var h := text[r.hostStart..r.hostEnd];
            match Canonical(h)
            case None => h == "" || h == "." || AdjacentDots(h)
            case Some(t) =>
              && t != [] && t[|t| - 1] != '.' && !AdjacentDots(t) && !HasUpper(t) && Canonical(t) == Some(t)
              && SameButCase(t, if h[|h| - 1] == '.' then h[..|h| - 1] else h)
  {
    hide Run, RequestSlices.HostName, AdjacentDots, HasUpper, Canonical;
    RequestSlices.HostSliceIsHostName(text, code, r, pos);
    ParserHost(text, r.hostStart, r.hostEnd);
    match Canonical(text[r.hostStart..r.hostEnd])
    case None =>
    case Some(t) => AcceptedName(text[r.hostStart..r.hostEnd], t);
  }
}
