/** The brief route (`/api/brief`): the title taken from a URL, the list limit
    of `GET`, and the decisions of `GET`, `DELETE` and `POST` around the
    database and the network, which are not modelled. */
module BriefRoute {
  import opened Wrappers
  import opened Text
  import opened BriefMarkdown

  // ---------------------------------------------------------------- titleFromUrl

  /** What the `URL` parser yields that the title needs. */
  datatype ParsedUrl = ParsedUrl(pathname: string, hostname: string)

  /** `pathname.split("/").filter(Boolean).pop()`: the last non-empty path segment. */
  function LastSegment(pathname: string): (r: Option<string>)
    ensures r.Some? ==> r.value != [] && r.value in Split(pathname, '/')
  {
    var parts := NonEmptyOnly(Split(pathname, '/'));
    SubsequenceMembers(parts, Split(pathname, '/'));
    if parts == [] then None else Some(parts[|parts| - 1])
  }

  /** The last piece of a split is the tail of the string after the last separator. */
  lemma {:induction false} SplitLastPiece(s: string, sep: char)
    ensures var p := Split(s, sep); var l := p[|p| - 1];
      |l| <= |s| && s[|s| - |l|..] == l && (|l| < |s| ==> s[|s| - |l| - 1] == sep)
    decreases |s|
  {
    if s != [] {
      SplitLastPiece(s[..|s| - 1], sep);
    }
  }

  /** `v` sits at `[b, e)` of `pathname`, starts the path or follows a `/`,
      and only `/`s come after it. */
  predicate SegmentAt(pathname: string, v: string, b: nat, e: nat) {
    b <= e <= |pathname| && pathname[b..e] == v && (b == 0 || pathname[b - 1] == '/') &&
    forall j | e <= j < |pathname| :: pathname[j] == '/'
  }

  predicate NoSlash(v: string) {
    forall k | 0 <= k < |v| :: v[k] != '/'
  }

  /** The last segment is a non-empty run without `/` that starts the path or
      follows a `/`, and only `/`s come after it; there is none exactly when
      the path is all `/`s. */
  lemma {:induction false} LastSegmentShape(pathname: string)
    ensures LastSegment(pathname).None? ==> forall i | 0 <= i < |pathname| :: pathname[i] == '/'
    ensures LastSegment(pathname).Some? ==>
      var v := LastSegment(pathname).value;
      v != [] && NoSlash(v) && exists b: nat, e: nat :: SegmentAt(pathname, v, b, e)
    decreases |pathname|
  {
    if pathname != [] {
      var init := pathname[..|pathname| - 1];
      LastSegmentShape(init);
      if pathname[|pathname| - 1] == '/' {
        SlashStep(pathname);
        if LastSegment(init).Some? {
          var b: nat, e: nat :| SegmentAt(init, LastSegment(init).value, b, e);
          assert SegmentAt(pathname, LastSegment(init).value, b, e);
        }
      } else {
        SegmentStep(pathname);
      }
    }
  }

  /** A trailing `/` adds no segment: the last segment, and where it sits, stay. */
  lemma SlashStep(s: string)
    requires s != [] && s[|s| - 1] == '/'
    ensures LastSegment(s) == LastSegment(s[..|s| - 1])
    ensures (forall i | 0 <= i < |s| - 1 :: s[i] == '/') ==> forall i | 0 <= i < |s| :: s[i] == '/'
    ensures forall v, b: nat, e: nat | SegmentAt(s[..|s| - 1], v, b, e) :: SegmentAt(s, v, b, e)
  {
    var init := s[..|s| - 1];
    var p := Split(init, '/');
    assert Split(s, '/') == p + [[]];
    assert (p + [[]])[..|p|] == p;
    forall v, b: nat, e: nat | SegmentAt(init, v, b, e) ensures SegmentAt(s, v, b, e) {
      assert s[b..e] == init[b..e];
    }
  }

  /** A path ending in a character other than `/` ends in its last segment. */
  lemma SegmentStep(s: string)
    requires s != [] && s[|s| - 1] != '/'
    ensures LastSegment(s).Some? && LastSegment(s).value != [] && NoSlash(LastSegment(s).value)
    ensures |LastSegment(s).value| <= |s|
    ensures SegmentAt(s, LastSegment(s).value, |s| - |LastSegment(s).value|, |s|)
  {
    var ps := Split(s, '/');
    SplitLastNonEmpty(s, '/');
    NonEmptyOnlyLast(ps);
    var v := ps[|ps| - 1];
    assert LastSegment(s) == Some(v);
    SplitLastPiece(s, '/');
    forall k | 0 <= k < |v| ensures v[k] != '/' {
      SplitPiecesFree(s, '/', |ps| - 1, k);
    }
    assert s[|s| - |v|..|s|] == s[|s| - |v|..];
  }

  /** A string that does not end in the separator has a non-empty last piece. */
  lemma SplitLastNonEmpty(s: string, sep: char)
    requires s != [] && s[|s| - 1] != sep
    ensures var p := Split(s, sep); p[|p| - 1] != []
  {
    var p := Split(s[..|s| - 1], sep);
    assert Split(s, sep) == p[..|p| - 1] + [p[|p| - 1] + [s[|s| - 1]]];
  }

  /** Dropping the empty texts keeps a non-empty last one last. */
  lemma NonEmptyOnlyLast(texts: seq<string>)
    requires texts != [] && texts[|texts| - 1] != []
    ensures var r := NonEmptyOnly(texts); r != [] && r[|r| - 1] == texts[|texts| - 1]
  {
    assert texts[..|texts| - 1] + [texts[|texts| - 1]] == texts;
  }

  /** The extensions stripped from a title: `/\.(html?|php|aspx?)$/i`. */
  const Extensions: seq<string> := [".html", ".htm", ".php", ".aspx", ".asp"]

  /** The extension `s` ends with, in any case, if any. */
  function ExtensionOf(s: string): (x: Option<string>)
    ensures x.Some? ==> x.value in Extensions && EndsWithCI(s, x.value)
    ensures x.None? ==> forall e | e in Extensions :: !EndsWithCI(s, e)
  {
    if EndsWithCI(s, ".html") then Some(".html")
    else if EndsWithCI(s, ".htm") then Some(".htm")
    else if EndsWithCI(s, ".php") then Some(".php")
    else if EndsWithCI(s, ".aspx") then Some(".aspx")
    else if EndsWithCI(s, ".asp") then Some(".asp")
    else None
  }

  /** `s.replace(/\.(html?|php|aspx?)$/i, "")`: one trailing extension removed. */
  function StripExtension(s: string): (r: string)
    ensures |r| <= |s| && r == s[..|r|]
    ensures r == s <==> forall x | x in Extensions :: !EndsWithCI(s, x)
    ensures r != s ==> exists x | x in Extensions :: EndsWithCI(s, x) && r == s[..|s| - |x|]
  {
    match ExtensionOf(s)
    case None => s
    case Some(x) =>
      assert x != [] by { assert x in Extensions; }
      s[..|s| - |x|]
  }

  predicate IsJoiner(c: char) { c == '_' || c == '-' || c == '+' }

  /** What one more character `c` after `s` adds: itself when plain, nothing
      when a joiner follows a joiner, a space for any other joiner. */
  function JoinerStep(s: string, c: char): string {
    if !IsJoiner(c) then [c]
    else if s != [] && IsJoiner(s[|s| - 1]) then []
    else [' ']
  }

  /** `s.replace(/[_\-+]+/g, " ")`: every maximal run of `_`, `-` and `+` becomes one space. */
  function JoinersToSpace(s: string): (r: string)
    ensures |r| <= |s|
    ensures forall i | 0 <= i < |r| :: !IsJoiner(r[i])
    ensures s != [] ==> r != [] && (IsJoiner(s[|s| - 1]) <==> r[|r| - 1] == ' ' && !(s[|s| - 1] == ' '))
  {
    if s == [] then []
    else
      var init, c := s[..|s| - 1], s[|s| - 1];
      if !IsJoiner(c) then JoinersToSpace(init) + [c]
      else if init != [] && IsJoiner(init[|init| - 1]) then JoinersToSpace(init)
      else JoinersToSpace(init) + [' ']
  }

  /** Text without `_`, `-` or `+` is left as it is. */
  lemma {:induction false} JoinersToSpaceOfPlain(s: string)
    requires forall i | 0 <= i < |s| :: !IsJoiner(s[i])
    ensures JoinersToSpace(s) == s
    decreases |s|
  {
    if s != [] {
      JoinersToSpaceOfPlain(s[..|s| - 1]);
    }
  }

  /** A non-empty run of `_`, `-` and `+` becomes a single space. */
  lemma {:induction false} JoinerRun(s: string)
    requires s != [] && forall i | 0 <= i < |s| :: IsJoiner(s[i])
    ensures JoinersToSpace(s) == " "
    decreases |s|
  {
    if |s| > 1 {
      JoinerRun(s[..|s| - 1]);
    }
  }

  /** The rewrite works run by run: text cut anywhere except inside a run of
      joiners is rewritten piece by piece. With `JoinerRun` and
      `JoinersToSpaceOfPlain` this fixes the result of every text. */
  lemma {:induction false} JoinersToSpaceAppend(a: string, b: string)
    requires a == [] || b == [] || !IsJoiner(a[|a| - 1]) || !IsJoiner(b[0])
    ensures JoinersToSpace(a + b) == JoinersToSpace(a) + JoinersToSpace(b)
    decreases |b|
  {
    if b == [] {
      assert a + b == a;
    } else {
      var b' := b[..|b| - 1];
      var step := JoinerStep(b', b[|b| - 1]);
      JoinersToSpaceLast(a, b);
      assert b' != [] ==> b'[0] == b[0];
      JoinersToSpaceAppend(a, b');
      JoinersToSpaceInit(b);
      Regroup(JoinersToSpace(a + b), JoinersToSpace(a), JoinersToSpace(b'), step, JoinersToSpace(b));
    }
  }

  /** The rewrite of `s` is that of all but its last character, followed by
      what the last character adds. */
  lemma JoinersToSpaceInit(s: string)
    requires s != []
    ensures JoinersToSpace(s) == JoinersToSpace(s[..|s| - 1]) + JoinerStep(s[..|s| - 1], s[|s| - 1])
  {
    SplitLast(s);
    JoinersToSpaceSnoc(s[..|s| - 1], s[|s| - 1]);
  }

  /** The last character of `b` adds the same after `a + b` as after `b` alone. */
  lemma JoinersToSpaceLast(a: string, b: string)
    requires b != [] && (a == [] || !IsJoiner(a[|a| - 1]) || !IsJoiner(b[0]))
    ensures JoinersToSpace(a + b) == JoinersToSpace(a + b[..|b| - 1]) + JoinerStep(b[..|b| - 1], b[|b| - 1])
  {
    var b', c := b[..|b| - 1], b[|b| - 1];
    assert a + b == (a + b') + [c];
    assert b' == [] ==> b[0] == c;
    JoinersToSpaceSnoc(a + b', c);
    JoinerStepAfter(a, b', c);
  }

  /** The rewrite of `s + [c]` is that of `s` followed by what `c` adds. */
  lemma JoinersToSpaceSnoc(s: string, c: char)
    ensures JoinersToSpace(s + [c]) == JoinersToSpace(s) + JoinerStep(s, c)
  {
    assert (s + [c])[..|s + [c]| - 1] == s && (s + [c])[|s + [c]| - 1] == c;
  }

  /** The step for `c` looks only at the character before it, so text in
      front does not change it unless that text ends a joiner run `c` continues. */
  lemma JoinerStepAfter(a: string, b: string, c: char)
    requires a == [] || b != [] || !IsJoiner(a[|a| - 1]) || !IsJoiner(c)
    ensures JoinerStep(a + b, c) == JoinerStep(b, c)
  {
    if b != [] {
      assert (a + b)[|a + b| - 1] == b[|b| - 1];
    } else {
      assert a + b == a;
    }
  }

  /** The characters of `s` that are neither white space nor joiners, in order. */
  function Plain(s: string): (r: string)
    ensures |r| <= |s|
    ensures forall i | 0 <= i < |r| :: !IsSpace(r[i]) && !IsJoiner(r[i])
  {
    if s == [] then []
    else Plain(s[..|s| - 1]) + (if IsSpace(s[|s| - 1]) || IsJoiner(s[|s| - 1]) then [] else [s[|s| - 1]])
  }

  /** Joiners become white space and nothing else changes: the visible
      characters of the result are the plain characters of the input. */
  lemma {:induction false} JoinersToSpaceKeepsPlain(s: string)
    ensures Visible(JoinersToSpace(s)) == Plain(s)
    decreases |s|
  {
    if s != [] {
      var init, c := s[..|s| - 1], s[|s| - 1];
      JoinersToSpaceKeepsPlain(init);
      assert [c][..0] == [] && [' '][..0] == [];
      VisibleAppend(JoinersToSpace(init), [c]);
      VisibleAppend(JoinersToSpace(init), [' ']);
    }
  }

  /** `\w` of a regular expression without the `u` flag. */
  predicate IsWordChar(c: char) {
    'a' <= c <= 'z' || 'A' <= c <= 'Z' || '0' <= c <= '9' || c == '_'
  }

  /** `\b\w` matches at `i`: a word character not preceded by one. */
  predicate WordStart(s: string, i: nat)
    requires i < |s|
  {
    IsWordChar(s[i]) && (i == 0 || !IsWordChar(s[i - 1]))
  }

  /** `s.replace(/\b\w/g, m => m.toUpperCase())`. */
  function Capitalize(s: string): (r: string)
    ensures |r| == |s|
  {
    seq(|s|, i requires 0 <= i < |s| => if WordStart(s, i) then UpperChar(s[i]) else s[i])
  }

  /** Capitalising changes only the case of the first letter of each word: the
      text is the same ignoring case, the word starts are the same, no word
      starts with a lower-case letter and every other character is kept. */
  lemma CapitalizeMeaning(s: string)
    ensures var r := Capitalize(s);
      Lower(r) == Lower(s) &&
      (forall i | 0 <= i < |s| :: WordStart(r, i) <==> WordStart(s, i)) &&
      (forall i | 0 <= i < |s| && WordStart(s, i) :: !('a' <= r[i] <= 'z')) &&
      (forall i | 0 <= i < |s| && !WordStart(s, i) :: r[i] == s[i])
  {
    var r := Capitalize(s);
    forall i | 0 <= i < |s| ensures IsWordChar(r[i]) <==> IsWordChar(s[i]) {
    }
  }

  /** The cleaned segment: extension stripped, joiner runs spaced, white space
      collapsed and trimmed. */
  function CleanSegment(decoded: string): (r: string)
    ensures IsNormal(r)
    ensures forall i | 0 <= i < |r| :: !IsJoiner(r[i])
    ensures Visible(r) == Plain(StripExtension(decoded))
  {
    JoinersToSpaceKeepsPlain(StripExtension(decoded));
    var j := JoinersToSpace(StripExtension(decoded));
    var r := Normalize(j);
    NormalizeKeepsOut(j, r);
    r
  }

  /** Normalising adds no `_`, `-` or `+`. */
  lemma NormalizeKeepsOut(s: string, r: string)
    requires r == Normalize(s)
    requires forall i | 0 <= i < |s| :: !IsJoiner(s[i])
    ensures forall i | 0 <= i < |r| :: !IsJoiner(r[i])
  {
    CollapseKeepsOut(s);
    var c := Collapse(s);
    TrimIsSlice(c);
    forall i | 0 <= i < |r| ensures !IsJoiner(r[i]) {
      assert r[i] == c[TrimOffset(c) + i];
    }
  }

  lemma {:induction false} CollapseKeepsOut(s: string)
    requires forall i | 0 <= i < |s| :: !IsJoiner(s[i])
    ensures forall i | 0 <= i < |Collapse(s)| :: !IsJoiner(Collapse(s)[i])
    decreases |s|
  {
    if s != [] {
      CollapseKeepsOut(s[..|s| - 1]);
    }
  }

  /** `titleFromUrl(u)`: absent for a missing or empty `u`, for a `u` the URL
      parser rejects and for a segment `decodeURIComponent` rejects; otherwise
      the capitalised cleaned last segment (or host name) capped at 140
      characters, or the host name when nothing is left after cleaning. */
  function TitleFromUrl(u: Option<string>, parse: string -> Option<ParsedUrl>,
                        decode: string -> Option<string>): (r: Option<string>)
    ensures !Truthy(u) ==> r.None?
    ensures Truthy(u) && parse(u.value).None? ==> r.None?
    ensures Truthy(u) && parse(u.value).Some? ==>
      var url := parse(u.value).value;
      var seg := LastSegment(url.pathname).GetOr(url.hostname);
      (r.None? <==> decode(seg).None?) &&
      (r.Some? && CleanSegment(decode(seg).value) == [] ==> r.value == url.hostname) &&
      (r.Some? && CleanSegment(decode(seg).value) != [] ==>
         r.value == Take(Capitalize(CleanSegment(decode(seg).value)), TitleCap))
  {
    if !Truthy(u) then None
    else
      match parse(u.value)
      case None => None
      case Some(url) =>
        var seg := LastSegment(url.pathname).GetOr(url.hostname);
        match decode(seg)
        case None => None
        case Some(d) =>
          var clean := CleanSegment(d);
          if clean != [] then Some(Take(Capitalize(clean), TitleCap)) else Some(url.hostname)
  }

  /** A title made from the path starts with a visible character, has no `_`,
      `-` or `+`, no two spaces in a row and no word starting with a lower-case
      letter, and reads as the cleaned segment up to case. */
  lemma {:induction false} TitleFromPathShape(clean: string)
    requires clean != [] && IsNormal(clean)
    requires forall i | 0 <= i < |clean| :: !IsJoiner(clean[i])
    ensures var t := Take(Capitalize(clean), TitleCap);
      t != [] && |t| <= TitleCap && !IsSpace(t[0]) &&
      (forall i | 0 <= i < |t| :: !IsJoiner(t[i])) &&
      (forall i, j | 0 <= i < |t| && j == i + 1 && j < |t| :: !(t[i] == ' ' && t[j] == ' ')) &&
      (forall i | 0 <= i < |t| && WordStart(t, i) :: !('a' <= t[i] <= 'z')) &&
      Lower(t) == Lower(clean[..|t|])
  {
    var r := Capitalize(clean);
    var t := Take(r, TitleCap);
    CapitalizeMeaning(clean);
    forall i | 0 <= i < |t| ensures t[i] == r[i] && (WordStart(t, i) <==> WordStart(r, i)) {
    }
    forall i | 0 <= i < |t| ensures !IsJoiner(t[i]) && (IsSpace(t[i]) <==> IsSpace(clean[i])) {
      assert t[i] == r[i];
    }
    assert Lower(t) == Lower(r)[..|t|];
    assert Lower(clean[..|t|]) == Lower(clean)[..|t|];
  }

  /** Case folding keeps white space where it is. */
  lemma {:induction false} VisibleOfLower(s: string)
    ensures Visible(Lower(s)) == Lower(Visible(s))
    decreases |s|
  {
    if s != [] {
      var init := s[..|s| - 1];
      VisibleOfLower(init);
      assert Lower(s)[..|s| - 1] == Lower(init);
      LowerAppend(Visible(init), [s[|s| - 1]]);
    }
  }

  /** A path title of at most 140 characters spells, up to case and spacing,
      exactly the letters of the decoded segment once its extension is cut and
      its joiners are dropped; a longer one is the start of that title. */
  lemma TitleReadsSegment(decoded: string)
    requires CleanSegment(decoded) != []
    ensures var clean := CleanSegment(decoded); var t := Take(Capitalize(clean), TitleCap);
      (|clean| <= TitleCap ==> Visible(Lower(t)) == Lower(Plain(StripExtension(decoded)))) &&
      Lower(t) == Lower(clean)[..|t|]
  {
    var clean := CleanSegment(decoded);
    var c := Capitalize(clean);
    var t := Take(c, TitleCap);
    assert Lower(c) == Lower(clean) by {
      CapitalizeMeaning(clean);
    }
    assert Lower(t) == Lower(clean)[..|t|] by {
      assert t == c[..|t|];
      assert forall i | 0 <= i < |t| :: Lower(t)[i] == Lower(c)[i];
    }
    if |clean| <= TitleCap {
      assert t == c;
      calc {
        Visible(Lower(t));
        Visible(Lower(clean));
        { VisibleOfLower(clean); }
        Lower(Visible(clean));
        Lower(Plain(StripExtension(decoded)));
      }
    }
  }

  // ---------------------------------------------------------------- GET

  predicate IsDigit(c: char) { '0' <= c <= '9' }

  function DigitValue(c: char): (d: nat)
    requires IsDigit(c)
    ensures d <= 9
  {
    c as int - '0' as int
  }

  /** The value of a run of decimal digits. */
  function DigitsValue(ds: string): (n: nat)
    requires forall i | 0 <= i < |ds| :: IsDigit(ds[i])
    decreases |ds|
  {
    if ds == [] then 0
    else DigitsValue(ds[..|ds| - 1]) * 10 + DigitValue(ds[|ds| - 1])
  }

  /** How many white-space characters start `s`. */
  function LeadingSpaces(s: string): (n: nat)
    ensures n <= |s|
    ensures n < |s| ==> !IsSpace(s[n])
    decreases |s|
  {
    if s != [] && IsSpace(s[0]) then 1 + LeadingSpaces(s[1..]) else 0
  }

  /** How many decimal digits start `d`. */
  function LeadingDigits(d: string): (n: nat)
    ensures n <= |d|
    ensures forall i | 0 <= i < n :: IsDigit(d[i])
    ensures n < |d| ==> !IsDigit(d[n])
    decreases |d|
  {
    if d != [] && IsDigit(d[0]) then
      var n := 1 + LeadingDigits(d[1..]);
      assert forall i | 1 <= i < n :: d[i] == d[1..][i - 1];
      n
    else 0
  }

  /** `parseInt(s, 10)`: leading white space skipped, an optional sign, then the
      longest run of decimal digits; absent (NaN) when there is no digit. */
  function ParseInt(s: string): (r: Option<int>)
    ensures var t := s[LeadingSpaces(s)..];
      var d := if t != [] && (t[0] == '-' || t[0] == '+') then t[1..] else t;
      r.None? <==> d == [] || !IsDigit(d[0])
  {
    var t := s[LeadingSpaces(s)..];
    if t != [] && t[0] == '-' then
      var v := ParseDigits(t[1..]);
      if v.None? then None else Some(-(v.value as int))
    else if t != [] && t[0] == '+' then
      var v := ParseDigits(t[1..]);
      if v.None? then None else Some(v.value as int)
    else
      var v := ParseDigits(t);
      if v.None? then None else Some(v.value as int)
  }

  /** The value of the longest leading run of decimal digits, absent when there is none. */
  function ParseDigits(d: string): (r: Option<nat>)
    ensures r.None? <==> d == [] || !IsDigit(d[0])
  {
    var n := LeadingDigits(d);
    if n == 0 then None else Some(DigitsValue(d[..n]))
  }

  /** A plain run of decimal digits parses to its value. */
  lemma ParseIntOfDigits(ds: string)
    requires ds != [] && forall i | 0 <= i < |ds| :: IsDigit(ds[i])
    ensures ParseInt(ds) == Some(DigitsValue(ds) as int)
  {
    ParseDigitsOfDigits(ds);
    NoLeadingSpace(ds);
  }

  /** A sign in front of the digits negates their value or keeps it. */
  lemma ParseIntSign(d: string, sign: char)
    requires sign == '-' || sign == '+'
    ensures var v := ParseDigits(d);
      ParseInt([sign] + d) == if v.None? then None else Some(if sign == '-' then -(v.value as int) else v.value as int)
  {
    var t := [sign] + d;
    NoLeadingSpace(t);
    assert t[1..] == d;
  }

  lemma ParseDigitsOfDigits(ds: string)
    requires ds != [] && forall i | 0 <= i < |ds| :: IsDigit(ds[i])
    ensures ParseDigits(ds) == Some(DigitsValue(ds))
  {
    assert LeadingDigits(ds) == |ds|;
    assert ds[..|ds|] == ds;
  }

  lemma NoLeadingSpace(s: string)
    requires s != [] && !IsSpace(s[0])
    ensures s[LeadingSpaces(s)..] == s
  {
    assert LeadingSpaces(s) == 0;
  }

  /** `parseInt` skips leading white space and stops at the first character
      that is not a digit: `" 20abc"` reads as 20. */
  lemma ParseIntPrefix(sp: string, ds: string, rest: string)
    requires forall i | 0 <= i < |sp| :: IsSpace(sp[i])
    requires ds != [] && forall i | 0 <= i < |ds| :: IsDigit(ds[i])
    requires rest == [] || !IsDigit(rest[0])
    ensures ParseInt(sp + (ds + rest)) == Some(DigitsValue(ds) as int)
  {
    DigitsThenRest(ds, rest);
    UnsignedPrefix(sp, ds + rest, DigitsValue(ds));
  }

  /** White space, then digits: the digits' value. */
  lemma UnsignedPrefix(sp: string, d: string, n: nat)
    requires forall i | 0 <= i < |sp| :: IsSpace(sp[i])
    requires ParseDigits(d) == Some(n)
    ensures ParseInt(sp + d) == Some(n as int)
  {
    NoLeadingSpace(d);
    SpacesFirst(sp, d);
  }

  /** White space, a sign, then text whose leading digit run reads as `n`: the
      sign applies to `n` (`" -20abc"` reads as -20, by `DigitsThenRest`). */
  lemma SignedPrefix(sp: string, sign: char, d: string, n: nat)
    requires forall i | 0 <= i < |sp| :: IsSpace(sp[i])
    requires sign == '-' || sign == '+'
    requires ParseDigits(d) == Some(n)
    ensures ParseInt(sp + ([sign] + d)) == Some(if sign == '-' then -(n as int) else n as int)
  {
    SignValue(sign, d, n);
    SpacesFirst(sp, [sign] + d);
  }

  lemma SignValue(sign: char, d: string, n: nat)
    requires sign == '-' || sign == '+'
    requires ParseDigits(d) == Some(n)
    ensures ParseInt([sign] + d) == Some(if sign == '-' then -(n as int) else n as int)
  {
    ParseIntSign(d, sign);
  }

  /** White space in front of a visible character does not change what `parseInt` reads. */
  lemma SpacesFirst(sp: string, t: string)
    requires forall i | 0 <= i < |sp| :: IsSpace(sp[i])
    requires t != [] && !IsSpace(t[0])
    ensures ParseInt(sp + t) == ParseInt(t)
  {
    SpacesThen(sp, t);
    NoLeadingSpace(t);
    assert (sp + t)[|sp|..] == t;
  }

  /** A run of white space before a visible character is skipped whole. */
  lemma {:induction false} SpacesThen(sp: string, t: string)
    requires forall i | 0 <= i < |sp| :: IsSpace(sp[i])
    requires t != [] && !IsSpace(t[0])
    ensures LeadingSpaces(sp + t) == |sp|
    decreases |sp|
  {
    if sp != [] {
      assert (sp + t)[1..] == sp[1..] + t;
      SpacesThen(sp[1..], t);
    }
  }

  /** A digit run followed by a non-digit is read in full and no further. */
  lemma DigitsThenRest(ds: string, rest: string)
    requires ds != [] && forall i | 0 <= i < |ds| :: IsDigit(ds[i])
    requires rest == [] || !IsDigit(rest[0])
    ensures ParseDigits(ds + rest) == Some(DigitsValue(ds))
  {
    var d := ds + rest;
    assert LeadingDigits(d) == |ds|;
    assert d[..|ds|] == ds;
  }

  /** `/^(true|1)$/i.test(list)`. */
  predicate IsListFlag(list: string)
    ensures IsListFlag(list) <==> (list == "1" ||
      (|list| == 4 && list[0] in "tT" && list[1] in "rR" && list[2] in "uU" && list[3] in "eE"))
  {
    Lower(list) == "true" || list == "1"
  }

  const FlagLimit := 50
  const FallbackLimit := 5

  /** The limit of a `?list=` query: 50 for `true`/`1`, otherwise `parseInt`
      clamped to [1, 100], with 0 and NaN both giving 5. */
  function ListLimit(list: string): (n: int)
    ensures 1 <= n <= 100
    ensures IsListFlag(list) ==> n == FlagLimit
  {
    if IsListFlag(list) then FlagLimit
    else
      var p := ParseInt(list);
      var v := if p.None? || p.value == 0 then FallbackLimit else p.value;
      if v < 1 then 1 else if v > 100 then 100 else v
  }

  /** How the numeric limit is chosen. */
  lemma ListLimitCases(list: string)
    requires !IsListFlag(list)
    ensures ParseInt(list).None? ==> ListLimit(list) == FallbackLimit
    ensures ParseInt(list) == Some(0) ==> ListLimit(list) == FallbackLimit
    ensures ParseInt(list).Some? && 1 <= ParseInt(list).value <= 100 ==> ListLimit(list) == ParseInt(list).value
    ensures ParseInt(list).Some? && ParseInt(list).value > 100 ==> ListLimit(list) == 100
    ensures ParseInt(list).Some? && ParseInt(list).value < 0 ==> ListLimit(list) == 1
  {
  }

  /** What `GET` looks up: a list, one brief, or nothing. */
  datatype GetQuery = ListBriefs(limit: int) | OneBrief(id: string) | NoLookup

  /** `GET`: a non-empty `list` parameter wins over `id`. */
  function GetQueryOf(list: Option<string>, id: Option<string>): (q: GetQuery)
    ensures Truthy(list) ==> q == ListBriefs(ListLimit(list.value))
    ensures !Truthy(list) && Truthy(id) ==> q == OneBrief(id.value)
    ensures !Truthy(list) && !Truthy(id) ==> q == NoLookup
  {
    if Truthy(list) then ListBriefs(ListLimit(list.value))
    else if Truthy(id) then OneBrief(id.value)
    else NoLookup
  }

  /** The status of `GET` given whether the lookup failed: 500 for a failed
      list, 404 for a failed single brief, 200 otherwise. */
  function GetStatus(q: GetQuery, lookupFails: bool): (status: int)
    ensures status in {200, 404, 500}
    ensures status == 200 <==> q.NoLookup? || !lookupFails
    ensures status == 404 <==> q.OneBrief? && lookupFails
  {
    match q
    case ListBriefs(_) => if lookupFails then 500 else 200
    case OneBrief(_) => if lookupFails then 404 else 200
    case NoLookup => 200
  }

  // ---------------------------------------------------------------- DELETE

  /** `DELETE`: 400 without an id (and nothing is deleted), 500 when the
      delete fails, 200 otherwise; the result says whether a delete was issued. */
  function DeleteReply(id: Option<string>, deleteFails: bool): (r: (int, bool))
    ensures !Truthy(id) <==> r == (400, false)
    ensures Truthy(id) ==> r.1 && (r.0 == 500 <==> deleteFails) && (r.0 == 200 <==> !deleteFails)
  {
    if !Truthy(id) then (400, false)
    else if deleteFails then (500, true)
    else (200, true)
  }

  // ---------------------------------------------------------------- POST

  /** The JSON body's fields (absent when missing, or when the body is not JSON). */
  datatype PostBody = PostBody(url: Option<string>, html: Option<string>, preview: bool, save: bool)

  /** What `fetch(url)` gave: a network failure, or a response with its
      `ok` flag, status and text. */
  datatype Fetched = NetworkError | Response(ok: bool, status: int, text: string)

  /** The row `POST` asks the database to store. */
  datatype Row = Row(url: string, title: Option<string>, markdown: string, html: string)

  /** How the database took the row: the full row, only `{url, title}`, or neither. */
  datatype Stored = StoredFull | StoredMinimal | NotStored

  datatype PostReply =
    | Rejected                                     // 400: neither url nor html
    | FetchFailed(httpStatus: int)                 // 502: the page answered with an error
    | Failed                                       // 500: network failure or nothing stored
    | Echoed(title: Option<string>, markdown: string)
    | Saved(row: Row, minimal: bool)

  function PostStatus(r: PostReply): int {
    match r
    case Rejected => 400
    case FetchFailed(_) => 502
    case Failed => 500
    case Echoed(_, _) => 200
    case Saved(_, _) => 200
  }

  const UntitledBrief := "Untitled Brief"
  const LocalUrl := "local://manual"

  function SaveReply(row: Row, stored: Stored): PostReply {
    match stored
    case StoredFull => Saved(row, false)
    case StoredMinimal => Saved(row, true)
    case NotStored => Failed
  }

  /** The URL branch of `POST`, given the conversion `convert` of a page text:
      500 on a network failure, 502 when the page answers with an error,
      otherwise the converted page stored under the given `url`, its title
      falling back to `titleFromUrl`. */
  function FromUrl(url: string, fetched: Fetched, convert: string -> Brief,
                   parseUrl: string -> Option<ParsedUrl>, decode: string -> Option<string>,
                   stored: Stored): (r: PostReply)
    ensures !r.Echoed? && !r.Rejected?
    ensures r.FetchFailed? <==> fetched.Response? && !fetched.ok
    ensures r.FetchFailed? ==> r.httpStatus == fetched.status
    ensures r.Saved? ==>
      (fetched.Response? && r.row.url == url && r.row.html == fetched.text &&
       r.row.markdown == convert(fetched.text).markdown)
    ensures r.Saved? && Truthy(convert(fetched.text).title) ==> r.row.title == convert(fetched.text).title
    ensures r.Saved? && !Truthy(convert(fetched.text).title) ==> r.row.title == TitleFromUrl(Some(url), parseUrl, decode)
    ensures fetched.NetworkError? ==> r == Failed
    ensures fetched.Response? && fetched.ok ==>
      (r.Saved? <==> stored != NotStored) && (r.Failed? <==> stored == NotStored) &&
      (r.Saved? ==> r.minimal == (stored == StoredMinimal))
  {
    match fetched
    case NetworkError => Failed
    case Response(ok, status, text) =>
      if !ok then FetchFailed(status)
      else
        var b := convert(text);
        var title := if Truthy(b.title) then b.title else TitleFromUrl(Some(url), parseUrl, decode);
        SaveReply(Row(url, title, b.markdown, text), stored)
  }

  /** The pasted-HTML branch of `POST`, given its conversion `b`: `b` echoed,
      or, with `save`, stored under `local://manual` and titled "Untitled
      Brief" when `b` has no title. */
  function FromHtml(html: string, b: Brief, preview: bool, save: bool, stored: Stored): (r: PostReply)
    ensures !r.Rejected? && !r.FetchFailed?
    ensures !save ==> r == Echoed(b.title, b.markdown)
    ensures save ==> !r.Echoed?
    ensures r.Saved? ==>
      (r.row.url == LocalUrl && r.row.html == html && r.row.markdown == b.markdown &&
       r.row.title == Some(if Truthy(b.title) then b.title.value else UntitledBrief))
    ensures save ==>
      (r.Saved? <==> stored != NotStored) && (r.Failed? <==> stored == NotStored) &&
      (r.Saved? ==> r.minimal == (stored == StoredMinimal))
  {
    if preview && !save then Echoed(b.title, b.markdown)
    else if save then
      var title := if Truthy(b.title) then b.title.value else UntitledBrief;
      SaveReply(Row(LocalUrl, Some(title), b.markdown, html), stored)
    else Echoed(b.title, b.markdown)
  }

  /** The conversion of a page text, given the HTML parser. */
  function Converter(parseDoc: string -> Doc): string -> Brief {
    (text: string) => Convert(parseDoc(text))
  }

  /** `POST`: a non-blank `url` takes the URL branch, otherwise a non-blank
      `html` the pasted-HTML branch, otherwise 400. */
  function Post(body: PostBody, fetched: Fetched, parseDoc: string -> Doc,
                parseUrl: string -> Option<ParsedUrl>, decode: string -> Option<string>,
                stored: Stored): (r: PostReply)
    ensures r.Rejected? <==> (body.url.None? || IsBlank(body.url.value)) && (body.html.None? || IsBlank(body.html.value))
    ensures body.url.Some? && !IsBlank(body.url.value) ==>
      r == FromUrl(body.url.value, fetched, Converter(parseDoc), parseUrl, decode, stored)
    ensures (body.url.None? || IsBlank(body.url.value)) && body.html.Some? && !IsBlank(body.html.value) ==>
      r == FromHtml(body.html.value, Convert(parseDoc(body.html.value)), body.preview, body.save, stored)
  {
    if body.url.Some? && !IsBlank(body.url.value) then
      FromUrl(body.url.value, fetched, Converter(parseDoc), parseUrl, decode, stored)
    else if body.html.Some? && !IsBlank(body.html.value) then
      FromHtml(body.html.value, Converter(parseDoc)(body.html.value), body.preview, body.save, stored)
    else Rejected
  }

  /** A non-blank `url` decides the branch whatever `html`, `preview` and `save` hold. */
  lemma UrlBeatsHtml(body: PostBody, html: Option<string>, preview: bool, save: bool, fetched: Fetched,
                     parseDoc: string -> Doc, parseUrl: string -> Option<ParsedUrl>,
                     decode: string -> Option<string>, stored: Stored)
    requires body.url.Some? && !IsBlank(body.url.value)
    ensures var r := Post(body, fetched, parseDoc, parseUrl, decode, stored);
      r == Post(body.(html := html, preview := preview, save := save), fetched, parseDoc, parseUrl, decode, stored) &&
      !r.Echoed? && (r.Saved? ==> r.row.url == body.url.value)
  {
  }

  /** The `preview` flag never changes the reply: without `save` the
      conversion is echoed whether or not `preview` is set. */
  lemma PreviewFlagIgnored(body: PostBody, preview: bool, fetched: Fetched, parseDoc: string -> Doc,
                           parseUrl: string -> Option<ParsedUrl>, decode: string -> Option<string>, stored: Stored)
    ensures Post(body.(preview := preview), fetched, parseDoc, parseUrl, decode, stored) ==
      Post(body, fetched, parseDoc, parseUrl, decode, stored)
  {
  }
}
