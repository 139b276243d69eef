/** The string and sequence vocabulary that the routes share: JavaScript's white
    space, `trim()`, the `/\s+/g` collapse, ASCII case folding, `includes`,
    `join`, the de-duplication of `new Set(...)` and `slice(0, n)`. */
module Text {

  /** JavaScript white space: the WhiteSpace and LineTerminator code points of
      ECMAScript, which are exactly the characters that the regular-expression
      class `\s` and `String.prototype.trim` both treat as blank. */
  predicate IsSpace(c: char) {
    c == ' ' || ('\t' <= c <= '\r') || ('\U{A0}' <= c && IsWideSpace(c))
  }

  /** The white-space characters beyond Latin-1's control range: no-break space,
      the Unicode space separators, the line and paragraph separators and the
      byte-order mark. */
  predicate IsWideSpace(c: char) {
    c == '\U{A0}' || c == '\U{1680}' || ('\U{2000}' <= c <= '\U{200A}') ||
    c == '\U{2028}' || c == '\U{2029}' || c == '\U{202F}' || c == '\U{205F}' ||
    c == '\U{3000}' || c == '\U{FEFF}'
  }

  predicate AllSpace(s: string) {
    forall i | 0 <= i < |s| :: IsSpace(s[i])
  }

  /** A string as JavaScript's truthiness sees it after `.trim()`: not blank. */
  predicate IsBlank(s: string) {
    AllSpace(s)
  }

  /** The non-blank characters of `s`, in order: what every white-space rewrite keeps. */
  function Visible(s: string): (r: string)
    ensures |r| <= |s|
    ensures r == [] <==> AllSpace(s)
  {
    if s == [] then []
    else Visible(s[..|s| - 1]) + (if IsSpace(s[|s| - 1]) then [] else [s[|s| - 1]])
  }

  lemma {:induction false} VisibleAppend(a: string, b: string)
    ensures Visible(a + b) == Visible(a) + Visible(b)
    decreases |b|
  {
    if b == [] {
      assert a + b == a;
    } else {
      var b' := b[..|b| - 1];
      assert (a + b)[..|a + b| - 1] == a + b';
      VisibleAppend(a, b');
    }
  }

  lemma VisibleOfBlank(s: string)
    requires AllSpace(s)
    ensures Visible(s) == []
  {
  }

  // ---------------------------------------------------------------- trim

  /** Neither end of `s` is white space. */
  predicate IsTrimmed(s: string) {
    s != [] ==> !IsSpace(s[0]) && !IsSpace(s[|s| - 1])
  }

  /** `String.prototype.trim`: `s` with the white space at both ends removed
      (see `TrimIsSlice` for what is removed and `TrimEmpty` for when nothing is left). */
  function Trim(s: string): (r: string)
    ensures |r| <= |s|
    ensures IsTrimmed(r)
    decreases |s|
  {
    if s != [] && IsSpace(s[0]) then Trim(s[1..])
    else if s != [] && IsSpace(s[|s| - 1]) then Trim(s[..|s| - 1])
    else s
  }

  /** How many white-space characters `trim()` removes from the front of `s`. */
  function TrimOffset(s: string): (n: nat)
    ensures n <= |s|
    decreases |s|
  {
    if s != [] && IsSpace(s[0]) then 1 + TrimOffset(s[1..]) else 0
  }

  /** What `trim()` keeps is one piece of `s`; everything before and after it is white space. */
  lemma TrimIsSlice(s: string)
    ensures TrimOffset(s) + |Trim(s)| <= |s|
    ensures Trim(s) == s[TrimOffset(s)..TrimOffset(s) + |Trim(s)|]
    ensures forall k | 0 <= k < TrimOffset(s) :: IsSpace(s[k])
    ensures forall k | TrimOffset(s) + |Trim(s)| <= k < |s| :: IsSpace(s[k])
  {
    TrimPiece(s);
    TrimCutsSpace(s);
  }

  /** What `trim()` keeps starts where the leading white space ends. */
  lemma {:induction false} TrimPiece(s: string)
    ensures TrimOffset(s) + |Trim(s)| <= |s|
    ensures Trim(s) == s[TrimOffset(s)..TrimOffset(s) + |Trim(s)|]
    decreases |s|
  {
    if s != [] && IsSpace(s[0]) {
      var t := s[1..];
      TrimPiece(t);
      var o, n := TrimOffset(t), |Trim(t)|;
      assert Trim(s) == Trim(t) && TrimOffset(s) == o + 1;
      var a, b := s[o + 1..o + 1 + n], t[o..o + n];
      forall k | 0 <= k < n ensures a[k] == b[k] {
        assert a[k] == s[o + 1 + k] && b[k] == t[o + k];
      }
      assert a == b;
    } else if s != [] && IsSpace(s[|s| - 1]) {
      var t := s[..|s| - 1];
      TrimPiece(t);
      assert Trim(s) == Trim(t) && TrimOffset(s) == 0;
      assert TrimOffset(t) == 0;
      assert s[..|Trim(t)|] == t[..|Trim(t)|];
    }
  }

  /** Everything `trim()` cuts off either end is white space. */
  lemma {:induction false} TrimCutsSpace(s: string)
    ensures forall k | 0 <= k < TrimOffset(s) :: IsSpace(s[k])
    ensures forall k | TrimOffset(s) + |Trim(s)| <= k < |s| :: IsSpace(s[k])
    decreases |s|
  {
    if s != [] && IsSpace(s[0]) {
      var t := s[1..];
      TrimCutsSpace(t);
      assert Trim(s) == Trim(t) && TrimOffset(s) == TrimOffset(t) + 1;
      assert forall k | 1 <= k < |s| :: s[k] == t[k - 1];
    } else if s != [] && IsSpace(s[|s| - 1]) {
      var t := s[..|s| - 1];
      TrimCutsSpace(t);
      assert Trim(s) == Trim(t) && TrimOffset(s) == 0;
      assert TrimOffset(t) == 0;
      assert forall k | 0 <= k < |t| :: s[k] == t[k];
    }
  }

  /** `trim()` leaves nothing exactly when `s` is blank. */
  lemma {:induction false} TrimEmpty(s: string)
    ensures Trim(s) == [] <==> AllSpace(s)
    decreases |s|
  {
    if s != [] && IsSpace(s[0]) {
      TrimEmpty(s[1..]);
      assert forall k | 1 <= k < |s| :: s[k] == s[1..][k - 1];
    } else if s != [] && IsSpace(s[|s| - 1]) {
      TrimEmpty(s[..|s| - 1]);
      assert forall k | 0 <= k < |s| - 1 :: s[k] == s[..|s| - 1][k];
    }
  }

  /** `trim()` removes only white space: the visible characters stay, in order. */
  lemma {:induction false} TrimKeepsVisible(s: string)
    ensures Visible(Trim(s)) == Visible(s)
    decreases |s|
  {
    if s != [] && IsSpace(s[0]) {
      TrimKeepsVisible(s[1..]);
      assert s == [s[0]] + s[1..];
      VisibleAppend([s[0]], s[1..]);
    } else if s != [] && IsSpace(s[|s| - 1]) {
      TrimKeepsVisible(s[..|s| - 1]);
    }
  }

  /** Trimming a string that neither starts nor ends with white space changes nothing. */
  lemma TrimOfTrimmed(s: string)
    requires IsTrimmed(s)
    ensures Trim(s) == s
  {
  }

  /** Trimming twice is trimming once. */
  lemma TrimIdempotent(s: string)
    ensures Trim(Trim(s)) == Trim(s)
  {
    TrimOfTrimmed(Trim(s));
  }

  // ---------------------------------------------------------------- collapse

  /** `s.replace(/\s+/g, " ")`: every maximal run of white space becomes one space. */
  function Collapse(s: string): (r: string)
    ensures |r| <= |s|
    ensures r == [] <==> s == []
    ensures s != [] ==> (IsSpace(s[|s| - 1]) <==> r[|r| - 1] == ' ')
    ensures forall i | 0 <= i < |r| :: IsSpace(r[i]) ==> r[i] == ' '
    ensures NoDoubleSpace(r)
  {
    if s == [] then []
    else
      var init, c := s[..|s| - 1], s[|s| - 1];
      if !IsSpace(c) then Collapse(init) + [c]
      else if init != [] && IsSpace(init[|init| - 1]) then Collapse(init)
      else Collapse(init) + [' ']
  }

  lemma {:induction false} CollapseKeepsVisible(s: string)
    ensures Visible(Collapse(s)) == Visible(s)
  {
    if s != [] {
      var init, c := s[..|s| - 1], s[|s| - 1];
      CollapseKeepsVisible(init);
      if !IsSpace(c) {
        VisibleAppend(Collapse(init), [c]);
      } else if init != [] && IsSpace(init[|init| - 1]) {
      } else {
        VisibleAppend(Collapse(init), [' ']);
      }
    }
  }

  /** A whole run of white space becomes one space. */
  lemma {:induction false} CollapseRun(w: string)
    requires w != [] && AllSpace(w)
    ensures Collapse(w) == " "
    decreases |w|
  {
    var init := w[..|w| - 1];
    if init != [] {
      assert forall i | 0 <= i < |init| :: init[i] == w[i];
      CollapseRun(init);
    }
  }

  /** Text without white space is left as it is. */
  lemma {:induction false} CollapseOfPlain(s: string)
    requires forall i | 0 <= i < |s| :: !IsSpace(s[i])
    ensures Collapse(s) == s
    decreases |s|
  {
    if s != [] {
      var init := s[..|s| - 1];
      assert forall i | 0 <= i < |init| :: init[i] == s[i];
      CollapseOfPlain(init);
      assert init + [s[|s| - 1]] == s;
    }
  }

  /** `s` ends with a white-space character. */
  predicate EndsWithSpace(s: string) {
    s != [] && IsSpace(s[|s| - 1])
  }

  /** What one more character adds: a visible one itself, a white-space
      character one space unless it continues a run. */
  function CollapseStep(s: string, c: char): string {
    if !IsSpace(c) then [c] else if EndsWithSpace(s) then [] else [' ']
  }

  lemma CollapseSnoc(s: string, c: char)
    ensures Collapse(s + [c]) == Collapse(s) + CollapseStep(s, c)
  {
    assert (s + [c])[..|s|] == s;
    assert Collapse(s) + [] == Collapse(s);
  }

  /** The rewrite goes run by run: cut anywhere but inside a run of white
      space, the two sides collapse separately. */
  lemma {:induction false} CollapseAppend(a: string, b: string)
    requires a == [] || b == [] || !(IsSpace(a[|a| - 1]) && IsSpace(b[0]))
    ensures Collapse(a + b) == Collapse(a) + Collapse(b)
    decreases |b|
  {
    if b == [] {
      assert a + b == a;
    } else {
      var init, c := b[..|b| - 1], b[|b| - 1];
      assert b == init + [c];
      assert init != [] ==> init[0] == b[0];
      StepAfterCut(a, init, c);
      CollapseAppend(a, init);
      CollapseAppendStep(a, init, c);
    }
  }

  /** Away from a run of white space across the cut, the character after the
      cut sees only the right-hand side. */
  lemma StepAfterCut(a: string, init: string, c: char)
    requires a == [] || init != [] || !(IsSpace(a[|a| - 1]) && IsSpace(c))
    ensures CollapseStep(a + init, c) == CollapseStep(init, c)
  {
    if init == [] {
      assert a + init == a;
    } else {
      assert (a + init)[|a + init| - 1] == init[|init| - 1];
    }
  }

  /** The induction step of `CollapseAppend`: one more character on the right. */
  lemma CollapseAppendStep(a: string, init: string, c: char)
    requires Collapse(a + init) == Collapse(a) + Collapse(init)
    requires CollapseStep(a + init, c) == CollapseStep(init, c)
    ensures Collapse(a + (init + [c])) == Collapse(a) + Collapse(init + [c])
  {
    SnocAssoc(a, init, c);
    CollapseSnoc(a + init, c);
    CollapseSnoc(init, c);
    Regroup(Collapse(a + (init + [c])), Collapse(a), Collapse(init), CollapseStep(init, c), Collapse(init + [c]));
  }

  lemma SnocAssoc<T>(a: seq<T>, b: seq<T>, c: T)
    ensures a + (b + [c]) == (a + b) + [c]
  {
  }

  /** Collapsing keeps a visible first character. */
  lemma CollapseFirst(s: string)
    requires s != [] && !IsSpace(s[0])
    ensures Collapse(s) != [] && Collapse(s)[0] == s[0]
  {
    assert s == [s[0]] + s[1..];
    CollapseAppend([s[0]], s[1..]);
    CollapseOfPlain([s[0]]);
  }

  /** `replace(/\s+/g, " ").trim()` drops the white space around the visible
      text and collapses each run inside it to one space (by `CollapseRun`,
      `CollapseOfPlain` and `CollapseAppend`). */
  lemma NormalizeFramed(lead: string, m: string, tail: string)
    requires AllSpace(lead) && AllSpace(tail)
    requires m != [] && !IsSpace(m[0]) && !IsSpace(m[|m| - 1])
    ensures Normalize(lead + m + tail) == Collapse(m)
  {
    var c := Collapse(m);
    assert Collapse(lead + m + tail) == Collapse(lead) + c + Collapse(tail) by {
      CollapseAppend(lead, m);
      assert (lead + m)[|lead + m| - 1] == m[|m| - 1];
      CollapseAppend(lead + m, tail);
    }
    assert AllSpace(Collapse(lead)) by {
      if lead != [] { CollapseRun(lead); }
    }
    assert AllSpace(Collapse(tail)) by {
      if tail != [] { CollapseRun(tail); }
    }
    assert c != [] && IsTrimmed(c) by {
      CollapseFirst(m);
    }
    TrimFramed(Collapse(lead), c, Collapse(tail));
  }

  /** Trimming white space + visible text + white space gives the text. */
  lemma {:induction false} TrimFramed(x: string, m: string, y: string)
    requires AllSpace(x) && AllSpace(y)
    requires m != [] && IsTrimmed(m)
    ensures Trim(x + m + y) == m
    decreases |x|
  {
    if x == [] {
      assert x + m + y == m + y;
      TrimPadded(m, y);
    } else {
      assert (x + m + y)[1..] == x[1..] + m + y;
      assert forall i | 0 <= i < |x[1..]| :: x[1..][i] == x[i + 1];
      TrimFramed(x[1..], m, y);
    }
  }

  /** A string in the normal form of `replace(/\s+/g, " ").trim()`. */
  predicate IsNormal(s: string) {
    (s != [] ==> !IsSpace(s[0]) && !IsSpace(s[|s| - 1])) &&
    (forall i | 0 <= i < |s| :: IsSpace(s[i]) ==> s[i] == ' ') &&
    NoDoubleSpace(s)
  }

  /** No two neighbouring characters of `s` are both spaces. */
  predicate NoDoubleSpace(s: string) {
    forall i, j | 0 <= i < |s| && j == i + 1 && j < |s| :: !(s[i] == ' ' && s[j] == ' ')
  }

  /** `s.replace(/\s+/g, " ").trim()`: white space collapsed and trimmed. The
      visible characters are kept, in order; the result is empty exactly when
      `s` is blank. */
  function Normalize(s: string): (r: string)
    ensures IsNormal(r)
    ensures Visible(r) == Visible(s)
    ensures r == [] <==> AllSpace(s)
  {
    var c := Collapse(s);
    TrimOfCollapsed(c);
    CollapseKeepsVisible(s);
    TrimKeepsVisible(c);
    TrimEmpty(c);
    Trim(c)
  }

  /** Trimming a collapsed string gives a string in normal form. */
  lemma TrimOfCollapsed(c: string)
    requires forall k | 0 <= k < |c| :: IsSpace(c[k]) ==> c[k] == ' '
    requires NoDoubleSpace(c)
    ensures IsNormal(Trim(c))
  {
    TrimIsSlice(c);
    SliceOfCollapsed(c, Trim(c), TrimOffset(c));
  }

  /** A slice of a collapsed string is collapsed. */
  lemma SliceOfCollapsed(c: string, r: string, i: nat)
    requires i + |r| <= |c| && r == c[i..i + |r|]
    requires forall k | 0 <= k < |c| :: IsSpace(c[k]) ==> c[k] == ' '
    requires NoDoubleSpace(c)
    ensures forall k | 0 <= k < |r| :: IsSpace(r[k]) ==> r[k] == ' '
    ensures NoDoubleSpace(r)
  {
    forall k | 0 <= k < |r| ensures IsSpace(r[k]) ==> r[k] == ' ' {
      assert r[k] == c[i + k];
    }
    forall k, j | 0 <= k < |r| && j == k + 1 && j < |r| ensures !(r[k] == ' ' && r[j] == ' ') {
      assert r[k] == c[i + k] && r[j] == c[i + j];
    }
  }

  // ---------------------------------------------------------------- case

  /** ASCII upper case to lower case; every other character is left alone. */
  function LowerChar(c: char): (r: char)
    ensures ('A' <= c <= 'Z') ==> r != c && UpperChar(r) == c
    ensures !('A' <= c <= 'Z') ==> r == c
  {
    if 'A' <= c <= 'Z' then (c as int + 32) as char else c
  }

  /** ASCII lower case to upper case; every other character is left alone. */
  function UpperChar(c: char): char {
    if 'a' <= c <= 'z' then (c as int - 32) as char else c
  }

  function Lower(s: string): (r: string)
    ensures |r| == |s|
    ensures forall i | 0 <= i < |s| :: r[i] == LowerChar(s[i])
  {
    seq(|s|, i requires 0 <= i < |s| => LowerChar(s[i]))
  }

  /** Text without ASCII capitals is its own lower case. */
  lemma LowerOfLower(s: string)
    requires forall i | 0 <= i < |s| :: !('A' <= s[i] <= 'Z')
    ensures Lower(s) == s
  {
  }

  lemma LowerAppend(a: string, b: string)
    ensures Lower(a + b) == Lower(a) + Lower(b)
  {
  }

  /** `s` starts with the lower-case pattern `p`, ignoring ASCII case (the `/i` flag
      on an ASCII literal). */
  predicate StartsWithCI(s: string, p: string) {
    |p| <= |s| && Lower(s[..|p|]) == p
  }

  /** `s` ends with the lower-case pattern `p`, ignoring ASCII case. */
  predicate EndsWithCI(s: string, p: string) {
    |p| <= |s| && Lower(s[|s| - |p|..]) == p
  }

  /** `s.includes(q)`: `q` occurs as a contiguous piece of `s` (the empty `q` always does). */
  predicate Contains(s: string, q: string) {
    exists i | 0 <= i <= |s| - |q| :: OccursAt(s, q, i)
  }

  predicate OccursAt(s: string, q: string, i: nat) {
    i + |q| <= |s| && s[i..i + |q|] == q
  }

  // ---------------------------------------------------------------- sequences

  /** `parts.join(sep)`. */
  function Join(parts: seq<string>, sep: string): string {
    if |parts| == 0 then ""
    else if |parts| == 1 then parts[0]
    else Join(parts[..|parts| - 1], sep) + sep + parts[|parts| - 1]
  }

  /** `s.slice(0, n)`: the first `n` elements, or all of them when there are fewer. */
  function Take<T>(s: seq<T>, n: nat): (r: seq<T>)
    ensures |r| <= n && |r| <= |s|
    ensures |s| <= n ==> r == s
    ensures n <= |s| ==> |r| == n
    ensures r == s[..|r|]
  {
    if |s| <= n then s else s[..n]
  }

  /** Cutting two sequences, one a prefix of the other, to the same length keeps them so. */
  lemma TakePrefix<T>(a: seq<T>, b: seq<T>, n: nat)
    requires a <= b
    ensures Take(a, n) <= Take(b, n)
  {
  }

  predicate NoDuplicates<T(==)>(s: seq<T>) {
    forall i, j | 0 <= i < j < |s| :: s[i] != s[j]
  }

  /** `a` is `b` with some elements left out and the rest kept in their order. */
  predicate IsSubsequence<T(==)>(a: seq<T>, b: seq<T>)
    decreases |b|
  {
    if a == [] then true
    else if b == [] then false
    else if a[|a| - 1] == b[|b| - 1] then IsSubsequence(a[..|a| - 1], b[..|b| - 1])
    else IsSubsequence(a, b[..|b| - 1])
  }

  lemma {:induction false} SubsequenceRefl<T>(a: seq<T>)
    ensures IsSubsequence(a, a)
    decreases |a|
  {
    if a != [] {
      SubsequenceRefl(a[..|a| - 1]);
    }
  }

  lemma {:induction false} SubsequenceSnoc<T>(a: seq<T>, b: seq<T>, x: T, keep: bool)
    requires IsSubsequence(a, b)
    ensures IsSubsequence(if keep then a + [x] else a, b + [x])
  {
    var b' := b + [x];
    assert b'[..|b'| - 1] == b;
    if keep {
      var a' := a + [x];
      assert a'[..|a'| - 1] == a;
    } else if a != [] && a[|a| - 1] == x {
      SubsequenceDrop(a, b);
    }
  }

  /** A subsequence of `b` without its last element is still a subsequence of `b`. */
  lemma {:induction false} SubsequenceDrop<T>(a: seq<T>, b: seq<T>)
    requires a != [] && IsSubsequence(a, b)
    ensures IsSubsequence(a[..|a| - 1], b)
    decreases |b|, 1
  {
    var a' := a[..|a| - 1];
    if a[|a| - 1] == b[|b| - 1] {
      SubsequenceDropLast(a', b);
    } else {
      SubsequenceDrop(a, b[..|b| - 1]);
      SubsequenceDropLast(a', b);
    }
  }

  /** A subsequence of `b` without its last element is a subsequence of `b`. */
  lemma {:induction false} SubsequenceDropLast<T>(a: seq<T>, b: seq<T>)
    requires b != [] && IsSubsequence(a, b[..|b| - 1])
    ensures IsSubsequence(a, b)
    decreases |b|, 0
  {
    if a != [] && a[|a| - 1] == b[|b| - 1] {
      SubsequenceDrop(a, b[..|b| - 1]);
    }
  }

  /** A prefix of a subsequence is a subsequence. */
  lemma {:induction false} SubsequencePrefix<T>(a: seq<T>, b: seq<T>, k: nat)
    requires k <= |a| && IsSubsequence(a, b)
    ensures IsSubsequence(a[..k], b)
    decreases |a| - k
  {
    if k < |a| {
      SubsequenceDrop(a, b);
      assert a[..|a| - 1][..k] == a[..k];
      SubsequencePrefix(a[..|a| - 1], b, k);
    } else {
      assert a[..k] == a;
    }
  }

  /** Every element of a subsequence of `b` is an element of `b`. */
  lemma {:induction false} SubsequenceMembers<T>(a: seq<T>, b: seq<T>)
    requires IsSubsequence(a, b)
    ensures forall x | x in a :: x in b
    decreases |b|
  {
    if a != [] && b != [] {
      if a[|a| - 1] == b[|b| - 1] {
        SubsequenceMembers(a[..|a| - 1], b[..|b| - 1]);
        assert a == a[..|a| - 1] + [a[|a| - 1]];
        assert b == b[..|b| - 1] + [b[|b| - 1]];
      } else {
        SubsequenceMembers(a, b[..|b| - 1]);
        assert b == b[..|b| - 1] + [b[|b| - 1]];
      }
    }
  }

  /** A non-empty sequence is its front followed by its last element. */
  lemma SplitLast<T>(s: seq<T>)
    requires s != []
    ensures s == s[..|s| - 1] + [s[|s| - 1]]
  {
  }

  /** Regrouping a three-part concatenation. */
  lemma Regroup<T>(whole: seq<T>, x: seq<T>, y: seq<T>, z: seq<T>, yz: seq<T>)
    requires whole == (x + y) + z && yz == y + z
    ensures whole == x + yz
  {
  }

  /** `Array.from(new Set(s))`: the elements of `s`, each once, at its first occurrence. */
  function Dedupe<T(==)>(s: seq<T>): (r: seq<T>)
    ensures |r| <= |s|
    ensures NoDuplicates(r)
    ensures forall i | 0 <= i < |s| :: s[i] in r
    ensures IsSubsequence(r, s)
  {
    if s == [] then []
    else
      var d := Dedupe(s[..|s| - 1]);
      DedupeStep(d, s);
      if s[|s| - 1] in d then d else d + [s[|s| - 1]]
  }

  lemma DedupeStep<T>(d: seq<T>, s: seq<T>)
    requires s != [] && |d| <= |s| - 1
    requires NoDuplicates(d) && IsSubsequence(d, s[..|s| - 1])
    requires forall i | 0 <= i < |s| - 1 :: s[i] in d
    ensures var r := if s[|s| - 1] in d then d else d + [s[|s| - 1]];
      |r| <= |s| && NoDuplicates(r) && IsSubsequence(r, s) &&
      forall i | 0 <= i < |s| :: s[i] in r
  {
    var init, x := s[..|s| - 1], s[|s| - 1];
    assert init + [x] == s;
    SubsequenceSnoc(d, init, x, x !in d);
    forall i | 0 <= i < |s| ensures s[i] in (if x in d then d else d + [x]) {
      if i < |init| {
        assert s[i] == init[i];
      }
    }
  }

  /** One more element is kept exactly when it has not been seen. */
  lemma DedupeSnoc<T>(s: seq<T>, x: T)
    ensures Dedupe(s + [x]) == if x in Dedupe(s) then Dedupe(s) else Dedupe(s) + [x]
  {
    assert (s + [x])[..|s|] == s;
  }

  /** Each element is kept at its first occurrence: de-duplicating any prefix
      of `s` gives a prefix of de-duplicating all of `s`. */
  lemma DedupeOrder<T>(s: seq<T>)
    ensures forall k | 0 <= k <= |s| :: Dedupe(s[..k]) <= Dedupe(s)
  {
    forall k | 0 <= k <= |s| ensures Dedupe(s[..k]) <= Dedupe(s) {
      DedupePrefix(s, k);
    }
  }

  lemma {:induction false} DedupePrefix<T>(s: seq<T>, k: nat)
    requires k <= |s|
    ensures Dedupe(s[..k]) <= Dedupe(s)
    decreases |s|
  {
    if k == |s| {
      assert s[..k] == s;
    } else {
      var init := s[..|s| - 1];
      DedupePrefix(init, k);
      assert init[..k] == s[..k];
      assert s == init + [s[|s| - 1]];
      DedupeSnoc(init, s[|s| - 1]);
    }
  }

  /** De-duplicating a sequence without duplicates changes nothing. */
  lemma {:induction false} DedupeOfDistinct<T>(s: seq<T>)
    requires NoDuplicates(s)
    ensures Dedupe(s) == s
  {
    if s != [] {
      DedupeOfDistinct(s[..|s| - 1]);
      assert s == s[..|s| - 1] + [s[|s| - 1]];
    }
  }

  /** De-duplication is idempotent. */
  lemma DedupeIdempotent<T>(s: seq<T>)
    ensures Dedupe(Dedupe(s)) == Dedupe(s)
  {
    DedupeOfDistinct(Dedupe(s));
  }

  /** `.filter(t => t.length > 0)` (also `.filter(Boolean)` on strings). */
  function NonEmptyOnly(texts: seq<string>): (r: seq<string>)
    ensures |r| <= |texts|
    ensures forall i | 0 <= i < |r| :: r[i] != []
    ensures IsSubsequence(r, texts)
    ensures forall i | 0 <= i < |texts| && texts[i] != [] :: texts[i] in r
    ensures forall x :: multiset(r)[x] == if x == [] then 0 else multiset(texts)[x]
    decreases |texts|
  {
    if texts == [] then []
    else
      var init, t := texts[..|texts| - 1], texts[|texts| - 1];
      var r := NonEmptyOnly(init);
      SubsequenceSnoc(r, init, t, t != []);
      assert init + [t] == texts;
      NonEmptyCountStep(r, init, t);
      assert forall i | 0 <= i < |init| :: init[i] == texts[i];
      if t != [] then r + [t] else r
  }

  /** Counting step of `NonEmptyOnly`: one more text keeps the counts of the
      non-empty texts and keeps the empty text out. */
  lemma NonEmptyCountStep(r: seq<string>, init: seq<string>, t: string)
    requires forall x :: multiset(r)[x] == if x == [] then 0 else multiset(init)[x]
    ensures var r' := if t != [] then r + [t] else r;
      forall x :: multiset(r')[x] == if x == [] then 0 else multiset(init + [t])[x]
  {
    assert multiset(init + [t]) == multiset(init) + multiset{t};
    assert multiset(r + [t]) == multiset(r) + multiset{t};
  }

  /** Dropping the empty texts from a list without any changes nothing. */
  lemma {:induction false} NonEmptyOnlyOfNonEmpty(texts: seq<string>)
    requires forall i | 0 <= i < |texts| :: texts[i] != []
    ensures NonEmptyOnly(texts) == texts
    decreases |texts|
  {
    if texts != [] {
      var init, t := texts[..|texts| - 1], texts[|texts| - 1];
      assert forall i | 0 <= i < |init| :: init[i] == texts[i];
      NonEmptyOnlyOfNonEmpty(init);
      assert t != [];
      assert texts[|texts| - 1..] == [t];
      assert init + texts[|texts| - 1..] == texts;
    }
  }

  /** `s.split(sep)`: the pieces between the occurrences of `sep`, each
      possibly empty; `""` splits into one empty piece. */
  function Split(s: string, sep: char): (parts: seq<string>)
    ensures |parts| >= 1
    decreases |s|
  {
    if s == [] then [[]]
    else
      var p := Split(s[..|s| - 1], sep);
      var c := s[|s| - 1];
      if c == sep then p + [[]] else p[..|p| - 1] + [p[|p| - 1] + [c]]
  }

  /** No piece of a split contains the separator. */
  lemma {:induction false} SplitPiecesFree(s: string, sep: char, i: nat, k: nat)
    requires i < |Split(s, sep)| && k < |Split(s, sep)[i]|
    ensures Split(s, sep)[i][k] != sep
    decreases |s|
  {
    if s != [] {
      var p := Split(s[..|s| - 1], sep);
      var c := s[|s| - 1];
      if c == sep {
        if i < |p| {
          SplitPiecesFree(s[..|s| - 1], sep, i, k);
        }
      } else if i < |p| - 1 || k < |p[|p| - 1]| {
        SplitPiecesFree(s[..|s| - 1], sep, i, k);
      }
    }
  }

  /** Joining the pieces with the separator gives back the string split. */
  lemma {:induction false} SplitJoin(s: string, sep: char)
    ensures Join(Split(s, sep), [sep]) == s
    decreases |s|
  {
    if s != [] {
      var init, c := s[..|s| - 1], s[|s| - 1];
      var p := Split(init, sep);
      SplitJoin(init, sep);
      assert s == init + [c];
      if c == sep {
        assert Split(s, sep) == p + [[]];
        JoinSnoc(p, [], [sep]);
        assert Join(p + [[]], [sep]) == init + [sep] + [];
      } else {
        assert Split(s, sep) == p[..|p| - 1] + [p[|p| - 1] + [c]];
        JoinExtendLast(p, init, c, [sep]);
      }
    }
  }

  /** Appending a character to the last piece appends it to the join. */
  lemma JoinExtendLast(p: seq<string>, joined: string, c: char, sep: string)
    requires |p| >= 1 && Join(p, sep) == joined
    ensures Join(p[..|p| - 1] + [p[|p| - 1] + [c]], sep) == joined + [c]
  {
    var q := p[..|p| - 1];
    assert p == q + [p[|p| - 1]];
    JoinSnoc(q, p[|p| - 1], sep);
    JoinSnoc(q, p[|p| - 1] + [c], sep);
  }

  /** A join whose first piece is not empty starts with that piece's first character. */
  lemma {:induction false} JoinFirst(parts: seq<string>, sep: string)
    requires parts != [] && parts[0] != []
    ensures Join(parts, sep) != [] && Join(parts, sep)[0] == parts[0][0]
    decreases |parts|
  {
    if |parts| > 1 {
      var init := parts[..|parts| - 1];
      JoinFirst(init, sep);
    }
  }

  /** A join whose last piece is not empty ends with that piece's last character. */
  lemma JoinLast(parts: seq<string>, sep: string)
    requires parts != [] && parts[|parts| - 1] != []
    ensures var j := Join(parts, sep); var x := parts[|parts| - 1];
      j != [] && j[|j| - 1] == x[|x| - 1]
  {
    var init := parts[..|parts| - 1];
    assert parts == init + [parts[|parts| - 1]];
    JoinSnoc(init, parts[|parts| - 1], sep);
  }

  /** Trimming keeps a piece that starts and ends visibly and is followed only
      by white space: the result ends with that piece. */
  lemma TrimKeepsTail(p: string, m: string, w: string)
    requires m != [] && !IsSpace(m[0]) && !IsSpace(m[|m| - 1]) && AllSpace(w)
    ensures var t := Trim(p + m + w); |m| <= |t| && t[|t| - |m|..] == m
  {
    var s := p + m + w;
    var t := Trim(s);
    var o := TrimOffset(s);
    TrimIsSlice(s);
    assert s[|p|] == m[0];
    assert s[|p| + |m| - 1] == m[|m| - 1];
    assert o <= |p|;
    assert o + |t| == |p| + |m|;
    assert t[|t| - |m|..] == s[|p|..|p| + |m|] == m;
  }

  /** Trimming a string whose ends are visible, followed by white space, gives that string back. */
  lemma TrimPadded(m: string, w: string)
    requires m != [] && IsTrimmed(m) && AllSpace(w)
    ensures Trim(m + w) == m
  {
    var s := m + w;
    TrimIsSlice(s);
    var o, n := TrimOffset(s), |Trim(s)|;
    assert s[0] == m[0];
    assert o == 0;
    assert s[|m| - 1] == m[|m| - 1];
    assert n >= |m|;
    assert Trim(s) == s[..|m|] == m;
  }

  /** A slice inside a prefix of `s` is the same slice of that prefix. */
  lemma SliceOfPrefix<T>(s: seq<T>, p: seq<T>, i: nat, j: nat)
    requires |p| <= |s| && s[..|p|] == p && i <= j <= |p|
    ensures s[i..j] == p[i..j]
  {
    assert forall k | i <= k < j :: s[k] == s[..|p|][k];
  }

  /** The first `n` elements of a suffix of `p` that starts at `h`. */
  lemma SliceOfSuffix<T>(p: seq<T>, h: nat, x: seq<T>, n: nat)
    requires h <= |p| && p[h..] == x && n <= |x|
    ensures p[h..h + n] == x[..n]
  {
    assert forall k | 0 <= k < n :: p[h + k] == p[h..][k];
  }

  /** Trimming a string that starts visibly keeps any piece of it that ends visibly, in place. */
  lemma TrimKeepsPiece(s: string, h: nat, piece: string)
    requires h + |piece| <= |s| && s[h..h + |piece|] == piece
    requires piece != [] && !IsSpace(piece[|piece| - 1]) && s != [] && !IsSpace(s[0])
    ensures h + |piece| <= |Trim(s)| && Trim(s)[h..h + |piece|] == piece
  {
    var e := h + |piece| - 1;
    assert s[e] == s[h..h + |piece|][|piece| - 1];
    TrimIsSlice(s);
    assert TrimOffset(s) == 0;
    assert e < |Trim(s)| && forall k | 0 <= k <= e :: Trim(s)[k] == s[k] by {
      assert !IsSpace(s[e]);
    }
    var kept := Trim(s)[h..h + |piece|];
    assert forall k | 0 <= k < |piece| :: kept[k] == s[h..h + |piece|][k];
  }

  /** Joining one more piece. */
  lemma JoinSnoc(parts: seq<string>, x: string, sep: string)
    ensures Join(parts + [x], sep) == if parts == [] then x else Join(parts, sep) + sep + x
  {
    var ps := parts + [x];
    assert ps[..|ps| - 1] == parts;
  }
}
