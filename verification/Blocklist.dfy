/** Domain blocklists: line formats, the two-set index and its lookup. */
module Blocklist {
  import opened Bytes

  datatype Entry = Exact(domain: Str) | DomainAndSubs(domain: Str)

  datatype Blocklist = Blocklist(exact: set<Str>, suffixes: set<Str>)

  /** A line of the source, or a read that failed (text that is not UTF-8, say). */
  datatype Line = Text(text: Str) | Unreadable

  // ---- Text utilities of the line parser --------------------------------------

  /** Length of the Unicode white space character a string starts with, or 0. */
  function SpaceAt(s: Str): (n: nat)
    ensures n <= |s| && n <= 3
  {
    if s == [] then 0
    else if Space1(s[0]) then 1
    else if |s| >= 2 && Space2(s[0], s[1]) then 2
    else if |s| >= 3 && Space3(s[0], s[1], s[2]) then 3
    else 0
  }

  predicate Space1(a: Byte) { 9 <= a <= 13 || a == 32 }

  predicate Space2(a: Byte, b: Byte) { a == 0xC2 && (b == 0x85 || b == 0xA0) }

  predicate Space3(a: Byte, b: Byte, c: Byte) {
    || (a == 0xE1 && b == 0x9A && c == 0x80)
    || (a == 0xE2 && b == 0x80 && (0x80 <= c <= 0x8A || c == 0xA8 || c == 0xA9 || c == 0xAF))
    || (a == 0xE2 && b == 0x81 && c == 0x9F)
    || (a == 0xE3 && b == 0x80 && c == 0x80)
  }

  /** Length of the white space character a string ends with, or 0. */
  function SpaceEnd(s: Str): (n: nat)
    ensures n <= |s| && n <= 3
    ensures n > 0 ==> SpaceAt(s[|s| - n..]) == n
  {
    var n := |s|;
    if n >= 1 && Space1(s[n - 1]) then 1
    else if n >= 2 && Space2(s[n - 2], s[n - 1]) then 2
    else if n >= 3 && Space3(s[n - 3], s[n - 2], s[n - 1]) then 3
    else 0
  }

  function TrimStart(s: Str): Str
    decreases |s|
  {
    if SpaceAt(s) > 0 then TrimStart(s[SpaceAt(s)..]) else s
  }

  function TrimEnd(s: Str): Str
    decreases |s|
  {
    if SpaceEnd(s) > 0 then TrimEnd(s[..|s| - SpaceEnd(s)]) else s
  }

  /** `str::trim`. */
  function Trim(s: Str): Str {
    TrimEnd(TrimStart(s))
  }

  function WordLen(s: Str): (n: nat)
    ensures n <= |s|
    ensures s != [] && SpaceAt(s) == 0 ==> n > 0
  {
    if s == [] || SpaceAt(s) > 0 then 0 else 1 + WordLen(s[1..])
  }

  /** `str::split_whitespace`. */
  function Words(s: Str): seq<Str>
    decreases |s|
  {
    if s == [] then []
    else if SpaceAt(s) > 0 then Words(s[SpaceAt(s)..])
    else [s[..WordLen(s)]] + Words(s[WordLen(s)..])
  }

  /** `trim_end_matches(|c| c == '^' || c == '|')`. */
  function TrimAnchors(s: Str): Str {
    if s != [] && (s[|s| - 1] == 94 || s[|s| - 1] == 124) then TrimAnchors(s[..|s| - 1]) else s
  }

  predicate DomainByte(b: Byte) {
    48 <= b <= 57 || 65 <= b <= 90 || 97 <= b <= 122 || b == 45 || b == DOT
  }

  /** `is_valid_domain`. */
  predicate ValidDomain(s: Str) {
    s != [] && |s| <= 253 && DOT in s && forall b <- s :: DomainByte(b)
  }

  predicate LooksLikeIp(s: Str) {
    (s != [] && 48 <= s[0] <= 57) || 58 in s
  }

  const LOCALHOST: Str := [108, 111, 99, 97, 108, 104, 111, 115, 116]

  // ---- Loading ---------------------------------------------------------------

  /** `parse_line`, on a trimmed line that is neither blank nor a comment. */
  function ParseLine(line: Str): Option<Entry> {
    if [124, 124] <= line then
      var domain := Lower(Trim(TrimAnchors(line[2..])));
      if ValidDomain(domain) then Some(DomainAndSubs(domain)) else None
    else if [64, 64] <= line then None
    else
      var tokens := Words(line);
      if |tokens| >= 2 && LooksLikeIp(tokens[0]) then
        var domain := Lower(tokens[1]);
        if ValidDomain(domain) && domain != LOCALHOST then Some(Exact(domain)) else None
      else if |tokens| == 1 && ValidDomain(Lower(tokens[0])) then Some(Exact(Lower(tokens[0])))
      else None
  }

  /** The entry a line of the source contributes. */
  function EntryOf(line: Line): Option<Entry> {
    match line
    case Unreadable => None
    case Text(text) =>
      var t := Trim(text);
      if t == [] || t[0] == 35 || t[0] == 33 then None else ParseLine(t)
  }

  ghost function Entries(lines: seq<Line>): set<Entry> {
    set l | l in lines && EntryOf(l).Some? :: EntryOf(l).value
  }

  ghost predicate Holds(list: Blocklist, lines: seq<Line>) {
    && (forall d :: d in list.exact <==> Exact(d) in Entries(lines))
    && (forall d :: d in list.suffixes <==> DomainAndSubs(d) in Entries(lines))
  }

  /** `Blocklist::parse`: the index holds exactly the entries of the lines. */
  method Parse(lines: seq<Line>) returns (list: Blocklist)
    ensures Holds(list, lines)
  {
    hide EntryOf;
    var exact: set<Str>, suffixes: set<Str> := {}, {};
    for i := 0 to |lines|
      invariant Holds(Blocklist(exact, suffixes), lines[..i])
    {
      EntriesSnoc(lines[..i], lines[i]);
      assert lines[..i + 1] == lines[..i] + [lines[i]];
      match EntryOf(lines[i]) {
        case Some(Exact(d)) => exact := exact + {d};
        case Some(DomainAndSubs(d)) => suffixes := suffixes + {d};
        case None =>
      }
    }
    assert lines[..|lines|] == lines;
    list := Blocklist(exact, suffixes);
  }

  lemma EntriesSnoc(lines: seq<Line>, l: Line)
    ensures Entries(lines + [l]) == Entries(lines) + if EntryOf(l).Some? then {EntryOf(l).value} else {}
  {
  }

  /** Every stored entry is lower-case, dotted, short and in the allowed alphabet. */
  ghost predicate WellFormed(d: Str) {
    IsLower(d) && DOT in d && |d| <= 253 && forall b <- d :: DomainByte(b)
  }

  lemma ParsedLineIsWellFormed(line: Str)
    requires ParseLine(line).Some?
    ensures WellFormed(ParseLine(line).value.domain)
  {
  }

  lemma StoredEntriesAreWellFormed(list: Blocklist, lines: seq<Line>, d: Str)
    requires Holds(list, lines) && d in list.exact + list.suffixes
    ensures WellFormed(d)
  {
    hide ParseLine, Trim;
    var e := if d in list.exact then Exact(d) else DomainAndSubs(d);
    var l :| l in lines && EntryOf(l) == Some(e);
    ParsedLineIsWellFormed(Trim(l.text));
  }

  // ---- Lookup ----------------------------------------------------------------

  /** `host` is a proper subdomain of `domain`. */
  predicate Subdomain(host: Str, domain: Str) {
    |host| > |domain| && host[|host| - |domain| - 1] == DOT && host[|host| - |domain|..] == domain
  }

  /** What being blocked means: listed, or equal to or below a listed domain. */
  ghost predicate Blocks(list: Blocklist, hostname: Str) {
    var host := Lower(hostname);
    || host in list.exact
    || exists s <- list.suffixes :: host == s || Subdomain(host, s)
  }

  /** `contains`: strip one label at a time and look the rest up. */
  method Contains(list: Blocklist, hostname: Str) returns (blocked: bool)
    ensures blocked <==> Blocks(list, hostname)
  {
    hide Lower;
    var host := Lower(hostname);
    if host in list.exact || host in list.suffixes {
      return true;
    }
    var rest := host;
    while FindDot(rest) < |rest|
      invariant |rest| <= |host| && rest == host[|host| - |rest|..]
      invariant forall s <- list.suffixes :: Subdomain(host, s) ==> Subdomain(rest, s)
      decreases |rest|
    {
      var pos := FindDot(rest);
      var next := rest[pos + 1..];
      assert Subdomain(host, next) by {
        assert host[|host| - |next| - 1] == rest[pos];
      }
      if next in list.suffixes {
        return true;
      }
      forall s | s in list.suffixes && Subdomain(host, s) ensures Subdomain(next, s) {
        StripOne(rest, pos, s);
      }
      rest := next;
    }
    forall s | s in list.suffixes ensures !Subdomain(host, s) {
      ParentsNeedDots(rest, s);
    }
    return false;
  }

  /** Past its first dot, a name still has every parent domain but the next one. */
  lemma StripOne(rest: Str, pos: nat, s: Str)
    requires pos < |rest| && pos == FindDot(rest)
    requires Subdomain(rest, s) && s != rest[pos + 1..]
    ensures Subdomain(rest[pos + 1..], s)
  {
    hide FindDot;
    var p, next := |rest| - |s| - 1, rest[pos + 1..];
    FirstDotIsFirst(rest, p);
    assert rest[p + 1..] == s && p != pos;
    assert next[p - pos - 1] == rest[p];
    assert next[p - pos..] == rest[p + 1..];
  }

  lemma ParentsNeedDots(rest: Str, s: Str)
    ensures Subdomain(rest, s) ==> FindDot(rest) < |rest|
  {
  }

  /** Loading is a union homomorphism: a longer list blocks what either part does. */
  lemma ConcatenationIsUnion(a: seq<Line>, b: seq<Line>, la: Blocklist, lb: Blocklist, lab: Blocklist, host: Str)
    requires Holds(la, a) && Holds(lb, b) && Holds(lab, a + b)
    ensures Blocks(lab, host) <==> Blocks(la, host) || Blocks(lb, host)
  {
  }

  /** Order and repetition of lines do not matter. */
  lemma OrderDoesNotMatter(a: seq<Line>, b: seq<Line>, la: Blocklist, lb: Blocklist)
    requires Holds(la, a) && Holds(lb, b)
    requires forall l :: l in a <==> l in b
    ensures la == lb
  {
  }

  // ---- White space ---------------------------------------------------------------

  /** Nothing but white space characters. */
  predicate Spaces(s: Str)
    decreases |s|
  {
    s == [] || (SpaceAt(s) > 0 && Spaces(s[SpaceAt(s)..]))
  }

  /** A word may be followed by nothing or by white space. */
  predicate Boundary(s: Str) { s == [] || SpaceAt(s) > 0 }

  /** Without white space. */
  predicate SpaceFree(s: Str) {
    s == [] || (SpaceAt(s) == 0 && SpaceFree(s[1..]))
  }

  /** Printable ASCII other than the space. */
  predicate PlainByte(b: Byte) { 33 <= b <= 126 }

  lemma SpaceAtPrefix(s: Str, more: Str)
    requires SpaceAt(s) > 0
    ensures SpaceAt(s + more) == SpaceAt(s) && (s + more)[SpaceAt(s)..] == s[SpaceAt(s)..] + more
  {
  }

  /** White space does not begin inside another character. */
  lemma SpaceAtAppend(s: Str, more: Str)
    requires s != [] && Boundary(more)
    ensures SpaceAt(s + more) == SpaceAt(s)
  {
  }

  lemma PlainIsNoSpace(s: Str)
    requires s != []
    ensures PlainByte(s[0]) ==> SpaceAt(s) == 0
    ensures PlainByte(s[|s| - 1]) ==> SpaceAt(s) != |s|
  {
  }

  lemma SpacesThen(ws: Str, more: Str)
    requires Spaces(ws) && ws != []
    ensures Boundary(ws + more)
  {
    SpaceAtPrefix(ws, more);
  }

  lemma {:induction false} TrimStartSpaces(ws: Str, s: Str)
    requires Spaces(ws)
    ensures TrimStart(ws + s) == TrimStart(s)
    decreases |ws|
  {
    hide SpaceAt;
    if ws == [] {
      assert ws + s == s;
    } else {
      SpaceAtPrefix(ws, s);
      TrimStartSpaces(ws[SpaceAt(ws)..], s);
    }
  }

  /** The last character of `s + c` is the white space `c`. */
  lemma TrimEndChar(s: Str, c: Str)
    requires SpaceAt(c) == |c| > 0
    ensures TrimEnd(s + c) == TrimEnd(s)
  {
    hide SpaceAt, SpaceEnd;
    SpaceEndIs(s, c);
    assert (s + c)[..|s|] == s;
  }

  lemma SpaceEndIs(s: Str, c: Str)
    requires SpaceAt(c) == |c| > 0
    ensures SpaceEnd(s + c) == |c|
  {
  }

  lemma {:induction false} TrimEndSpaces(s: Str, ws: Str)
    requires Spaces(ws)
    ensures TrimEnd(s + ws) == TrimEnd(s)
    decreases |ws|
  {
    hide TrimEnd, SpaceAt;
    if ws == [] {
      assert s + ws == s;
    } else {
      var n := SpaceAt(ws);
      FirstSpace(ws);
      TrimEndChar(s, ws[..n]);
      TrimEndSpaces(s + ws[..n], ws[n..]);
      assert s + ws == (s + ws[..n]) + ws[n..];
    }
  }

  lemma FirstSpace(s: Str)
    ensures SpaceAt(s[..SpaceAt(s)]) == SpaceAt(s)
  {
  }

  /** Trimming stops at printable ASCII, whatever follows it. */
  lemma {:induction false} TrimEndStops(s: Str, more: Str)
    requires s != [] && PlainByte(s[|s| - 1])
    ensures s <= TrimEnd(s + more) <= s + more
    decreases |more|
  {
    hide SpaceAt, SpaceEnd;
    var t := s + more;
    var n := SpaceEnd(t);
    if n > 0 {
      EndInMore(s, more, n);
      assert t[..|t| - n] == s + more[..|more| - n];
      TrimEndStops(s, more[..|more| - n]);
    }
  }

  lemma EndInMore(s: Str, more: Str, n: nat)
    requires s != [] && PlainByte(s[|s| - 1]) && 0 < n <= 3 && n <= |s + more|
    requires SpaceAt((s + more)[|s + more| - n..]) == n
    ensures n <= |more|
  {
  }

  lemma TrimPadded(ws: Str, s: Str, more: Str)
    requires Spaces(ws) && SpaceAt(s + more) == 0
    ensures Trim(ws + s + more) == TrimEnd(s + more)
  {
    hide TrimEnd, SpaceAt, Spaces;
    assert ws + s + more == ws + (s + more);
    TrimStartSpaces(ws, s + more);
  }

  /** Between white space, a text that starts and ends in printable ASCII is what trimming
      leaves. */
  lemma TrimIs(ws: Str, s: Str, after: Str)
    requires Spaces(ws) && Spaces(after) && s != [] && PlainByte(s[0]) && PlainByte(s[|s| - 1])
    ensures Trim(ws + s + after) == s
  {
    hide Trim, TrimEnd, SpaceAt, Spaces;
    PlainIsNoSpace(s + after);
    TrimPadded(ws, s, after);
    TrimEndSpaces(s, after);
    TrimEndStops(s, []);
    assert s + [] == s;
  }

  lemma {:induction false} TrimEndIsPrefix(s: Str)
    ensures TrimEnd(s) <= s
    decreases |s|
  {
    hide SpaceAt, SpaceEnd;
    if SpaceEnd(s) > 0 { TrimEndIsPrefix(s[..|s| - SpaceEnd(s)]); }
  }

  // ---- Words -----------------------------------------------------------------------

  lemma {:induction false} WordLenIs(word: Str, more: Str)
    requires SpaceFree(word) && Boundary(more)
    ensures WordLen(word + more) == |word|
  {
    hide SpaceAt;
    if word == [] {
      assert word + more == more;
    } else {
      SpaceAtAppend(word, more);
      WordLenIs(word[1..], more);
      assert (word + more)[1..] == word[1..] + more;
    }
  }

  lemma FirstWord(word: Str, more: Str)
    requires SpaceFree(word) && word != [] && Boundary(more)
    ensures Words(word + more) == [word] + Words(more)
  {
    hide SpaceAt, WordLen;
    SpaceAtAppend(word, more);
    WordLenIs(word, more);
    assert (word + more)[..|word|] == word && (word + more)[|word|..] == more;
  }

  lemma {:induction false} WordsAfterSpaces(ws: Str, s: Str)
    requires Spaces(ws)
    ensures Words(ws + s) == Words(s)
    decreases |ws|
  {
    hide SpaceAt, WordLen;
    if ws == [] {
      assert ws + s == s;
    } else {
      SpaceAtPrefix(ws, s);
      WordsAfterSpaces(ws[SpaceAt(ws)..], s);
    }
  }

  lemma {:induction false} WordLenAppend(s: Str, more: Str)
    requires Boundary(more)
    ensures WordLen(s + more) == WordLen(s)
  {
    hide SpaceAt;
    if s == [] {
      assert s + more == more;
    } else {
      SpaceAtAppend(s, more);
      WordLenAppend(s[1..], more);
      assert (s + more)[1..] == s[1..] + more;
    }
  }

  lemma {:induction false} WordsBeforeSpace(s: Str, c: Str)
    requires SpaceAt(c) == |c| > 0
    ensures Words(s + c) == Words(s)
    decreases |s|
  {
    hide SpaceAt, WordLen;
    if s == [] {
      assert s + c == c && c[|c|..] == [];
    } else {
      SpaceAtAppend(s, c);
      WordLenAppend(s, c);
      var n := if SpaceAt(s) > 0 then SpaceAt(s) else WordLen(s);
      assert (s + c)[n..] == s[n..] + c && (s + c)[..n] == s[..n];
      WordsBeforeSpace(s[n..], c);
    }
  }

  /** Trimming loses no word. */
  lemma {:induction false} WordsOfTrimEnd(s: Str)
    ensures Words(TrimEnd(s)) == Words(s)
    decreases |s|
  {
    hide SpaceAt, SpaceEnd, Words;
    var n := SpaceEnd(s);
    if n > 0 {
      WordsOfTrimEnd(s[..|s| - n]);
      WordsBeforeSpace(s[..|s| - n], s[|s| - n..]);
      assert s[..|s| - n] + s[|s| - n..] == s;
    }
  }

  // ---- The three formats -------------------------------------------------------

  lemma {:induction false} DomainIsSpaceFree(d: Str)
    requires forall b <- d :: DomainByte(b)
    ensures SpaceFree(d)
  {
    if d != [] {
      assert d[0] in d && forall b <- d[1..] :: b in d;
      PlainIsNoSpace(d);
      DomainIsSpaceFree(d[1..]);
    }
  }

  lemma DomainEnds(d: Str)
    requires ValidDomain(d)
    ensures PlainByte(d[0]) && PlainByte(d[|d| - 1]) && DomainByte(d[0]) && DomainByte(d[|d| - 1])
  {
    assert d[0] in d && d[|d| - 1] in d;
  }

  lemma LowerDomain(d: Str)
    ensures ValidDomain(Lower(d)) <==> ValidDomain(d)
    ensures ValidDomain(d) ==> Lower(d) != LOCALHOST
  {
    LowerKeepsDots(d);
    forall i | 0 <= i < |d| ensures DomainByte(Lower(d)[i]) <==> DomainByte(d[i]) {}
    assert forall i :: 0 <= i < |d| ==> d[i] in d && Lower(d)[i] in Lower(d);
    assert DOT in Lower(d) ==> Lower(d) != LOCALHOST;
  }

  /** The line starts like a comment, an exception or an AdBlock rule. */
  predicate Marked(s: Str) {
    s != [] && (s[0] in {33, 35} || [64, 64] <= s || [124, 124] <= s)
  }

  /** What any other line means: the first word is the domain if it stands alone, and if
      it looks like an address the second one is; everything else is skipped. */
  lemma UnmarkedLine(ws: Str, word: Str, more: Str)
    requires Spaces(ws) && word != [] && SpaceFree(word) && Boundary(more) && !Marked(word)
    ensures EntryOf(Text(ws + word + more)) ==
      var others := Words(more);
      if others == [] && ValidDomain(word) then Some(Exact(Lower(word)))
      else if others != [] && LooksLikeIp(word) && ValidDomain(others[0]) then Some(Exact(Lower(others[0])))
      else None
  {
    hide Trim, TrimEnd, Words, SpaceAt, ValidDomain, LooksLikeIp, Lower, Spaces;
    var t := TrimEnd(word + more);
    SpaceAtAppend(word, more);
    TrimPadded(ws, word, more);
    TrimEndIsPrefix(word + more);
    WordsOfTrimEnd(word + more);
    NoWords([]);
    FirstWord(word, more);
    var tokens := Words(t);
    LowerDomain(word);
    if |tokens| >= 2 { LowerDomain(tokens[1]); }
    StillUnmarked(word, more, t);
  }

  lemma StillUnmarked(word: Str, more: Str, t: Str)
    requires word != [] && Boundary(more) && !Marked(word) && t != [] && t <= word + more
    ensures !Marked(t)
  {
    assert t[0] == word[0];
    if |t| >= 2 {
      assert t[1] == if |word| >= 2 then word[1] else more[0];
      assert |word| >= 2 ==> word[..2] == t[..2];
    }
  }

  /** Domains-only: a domain between any white space is an exact entry. */
  lemma BareDomainFormat(ws: Str, d: Str, after: Str)
    requires Spaces(ws) && ValidDomain(d) && Spaces(after)
    ensures EntryOf(Text(ws + d + after)) == Some(Exact(Lower(d)))
  {
    hide Words, SpaceAt, Lower, Spaces, EntryOf;
    DomainEnds(d);
    DomainIsSpaceFree(d);
    NoWords(after);
    UnmarkedLine(ws, d, after);
  }

  lemma NoWords(ws: Str)
    requires Spaces(ws)
    ensures Words(ws) == [] && Boundary(ws)
  {
    WordsAfterSpaces(ws, []);
    assert ws + [] == ws;
  }

  /** Hosts file: an address, then a domain, make an exact entry, whatever words follow. */
  lemma HostsFormat(ws: Str, ip: Str, gap: Str, d: Str, more: Str)
    requires Spaces(ws) && Spaces(gap) && gap != [] && Boundary(more) && ValidDomain(d)
    requires SpaceFree(ip) && LooksLikeIp(ip) && !Marked(ip)
    ensures EntryOf(Text(ws + ip + (gap + d + more))) == Some(Exact(Lower(d)))
  {
    hide Words, SpaceAt, Lower, Spaces, EntryOf, Boundary;
    DomainIsSpaceFree(d);
    SpacesThen(gap, d + more);
    assert gap + d + more == gap + (d + more);
    WordsAfterSpaces(gap, d + more);
    FirstWord(d, more);
    UnmarkedLine(ws, ip, gap + d + more);
  }

  /** A run of closing carets and bars. */
  predicate Anchors(s: Str) {
    s == [] || (s[|s| - 1] in {94, 124} && Anchors(s[..|s| - 1]))
  }

  lemma {:induction false} TrimAnchorsOf(s: Str, anchors: Str)
    requires Anchors(anchors) && s != [] && s[|s| - 1] !in {94, 124}
    ensures TrimAnchors(s + anchors) == s
    decreases |anchors|
  {
    if anchors == [] {
      assert s + anchors == s;
    } else {
      TrimAnchorsOf(s, anchors[..|anchors| - 1]);
      assert (s + anchors)[..|s + anchors| - 1] == s + anchors[..|anchors| - 1];
    }
  }

  lemma AnchorsEnd(anchors: Str)
    ensures Anchors(anchors) && anchors != [] ==> PlainByte(anchors[|anchors| - 1])
  {
  }

  lemma {:induction false} SpacesEnd(ws: Str)
    requires Spaces(ws) && ws != []
    ensures ws[|ws| - 1] !in {94, 124}
    decreases |ws|
  {
    if SpaceAt(ws) < |ws| { SpacesEnd(ws[SpaceAt(ws)..]); }
  }

  lemma AnchoredLine(body: Str, anchors: Str, d: Str)
    requires Anchors(anchors) && body != [] && body[|body| - 1] !in {94, 124} && Trim(body) == d && ValidDomain(d)
    ensures ParseLine([124, 124] + body + anchors) == Some(DomainAndSubs(Lower(d)))
  {
    hide Words, Trim, Lower, TrimAnchors, Anchors, ValidDomain, LooksLikeIp;
    var line := [124, 124] + body + anchors;
    assert line[..2] == [124, 124] && line[2..] == body + anchors;
    TrimAnchorsOf(body, anchors);
    LowerDomain(d);
  }

  lemma BodyEnds(inner: Str, d: Str, gap: Str)
    requires ValidDomain(d) && Spaces(gap)
    ensures var body := inner + d + gap;
      body != [] && body[|body| - 1] !in {94, 124} && (gap == [] ==> PlainByte(body[|body| - 1]))
  {
    hide Spaces;
    DomainEnds(d);
    if gap != [] { SpacesEnd(gap); }
  }

  /** AdBlock: an anchored domain, with or without closing carets or bars and with white
      space anywhere around, covers its subdomains. */
  lemma AdblockFormat(ws: Str, inner: Str, d: Str, gap: Str, anchors: Str, after: Str)
    requires Spaces(ws) && Spaces(inner) && ValidDomain(d) && Spaces(gap) && Anchors(anchors) && Spaces(after)
    requires anchors == [] ==> gap == []
    ensures EntryOf(Text(ws + ([124, 124] + (inner + d + gap) + anchors) + after)) == Some(DomainAndSubs(Lower(d)))
  {
    hide Trim, Lower, Anchors, Spaces, ParseLine;
    var body := inner + d + gap;
    var line := [124, 124] + body + anchors;
    DomainEnds(d);
    BodyEnds(inner, d, gap);
    AnchorsEnd(anchors);
    assert line[|line| - 1] == if anchors == [] then body[|body| - 1] else anchors[|anchors| - 1];
    TrimIs(ws, line, after);
    TrimIs(inner, d, gap);
    AnchoredLine(body, anchors, d);
  }

  /** A blank line, a comment or an AdBlock exception, with anything after the mark. */
  predicate Remark(ws: Str, mark: Str, more: Str) {
    Spaces(ws) && (mark in {[33], [35], [64, 64]} || mark == more == [])
  }

  /** Remarks can be put anywhere in a file, or taken out: the list stays the same. */
  lemma RemarksAreInert(a: seq<Line>, b: seq<Line>, ws: Str, mark: Str, more: Str, without: Blocklist, with: Blocklist)
    requires Remark(ws, mark, more)
    requires Holds(without, a + b) && Holds(with, a + [Text(ws + mark + more)] + b)
    ensures with == without
  {
    hide EntryOf, Remark;
    RemarkHasNoEntry(ws, mark, more);
    var remark := Text(ws + mark + more);
    assert Entries(a + [remark] + b) == Entries(a + b);
  }

  lemma RemarkHasNoEntry(ws: Str, mark: Str, more: Str)
    requires Remark(ws, mark, more)
    ensures EntryOf(Text(ws + mark + more)).None?
  {
    hide Trim, TrimEnd, Spaces, Words, SpaceAt;
    if mark == [] {
      TrimNothing(ws);
      assert ws + mark + more == ws;
    } else {
      PlainIsNoSpace(mark + more);
      TrimPadded(ws, mark, more);
      TrimEndStops(mark, more);
    }
  }

  lemma TrimNothing(ws: Str)
    requires Spaces(ws)
    ensures Trim(ws) == []
  {
    TrimStartSpaces(ws, []);
    assert ws + [] == ws;
  }

  // ---- Writing a list and loading it ------------------------------------------------

  /** A file with one line for each entry of the list, in any order. */
  ghost predicate Writes(lines: seq<Line>, list: Blocklist) {
    && (forall d <- list.exact :: Text(d) in lines)
    && (forall d <- list.suffixes :: Text([124, 124] + d + [94]) in lines)
    && (forall l <- lines :: (exists d <- list.exact :: l == Text(d))
                             || (exists d <- list.suffixes :: l == Text([124, 124] + d + [94])))
  }

  lemma WrittenEntries(d: Str)
    requires WellFormed(d)
    ensures EntryOf(Text(d)) == Some(Exact(d))
    ensures EntryOf(Text([124, 124] + d + [94])) == Some(DomainAndSubs(d))
  {
    hide EntryOf, Lower;
    assert ValidDomain(d) && Lower(d) == d by { LowerIdempotent(d); }
    BareDomainFormat([], d, []);
    AdblockFormat([], [], d, [], [94], []);
    assert [] + d + [] == d;
    assert [] + ([124, 124] + d + [94]) + [] == [124, 124] + d + [94];
  }

  /** Loading a written list gives the list back exactly when all its entries are
      well-formed. */
  lemma LoadInvertsWrite(list: Blocklist, lines: seq<Line>, loaded: Blocklist)
    requires Writes(lines, list) && Holds(loaded, lines)
    ensures loaded == list <==> forall d <- list.exact + list.suffixes :: WellFormed(d)
  {
    hide EntryOf, WellFormed;
    forall d | d in loaded.exact + loaded.suffixes ensures WellFormed(d) {
      StoredEntriesAreWellFormed(loaded, lines, d);
    }
    if forall d <- list.exact + list.suffixes :: WellFormed(d) {
      forall d | d in list.exact + list.suffixes
        ensures EntryOf(Text(d)) == Some(Exact(d))
        ensures EntryOf(Text([124, 124] + d + [94])) == Some(DomainAndSubs(d))
      {
        WrittenEntries(d);
      }
    }
  }
}
