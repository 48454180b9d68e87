/**
 * The tokenizer of the graphing calculator (`stringToInfix` in
 * mejs/Postfix.js): the textual rewrites applied to the equation, a
 * functional description of how one token is read at a position, and the
 * imperative scanning loop, proved to produce exactly that description.
 */
module PostfixLexer {
  import opened Wrappers
  import opened PostfixTokens

  predicate IsDigit(c: char) { '0' <= c <= '9' }
  predicate IsLower(c: char) { 'a' <= c <= 'z' }
  predicate IsUpper(c: char) { 'A' <= c <= 'Z' }
  predicate IsNumberChar(c: char) { IsDigit(c) || c == '.' }

  /** The characters matched by the JavaScript regular-expression class `\s`. */
  predicate IsWhitespace(c: char) {
    var n := c as int;
    || (0x09 <= n <= 0x0D) || n == 0x20 || n == 0xA0 || n == 0x1680
    || (0x2000 <= n <= 0x200A) || n == 0x2028 || n == 0x2029 || n == 0x202F
    || n == 0x205F || n == 0x3000 || n == 0xFEFF
  }

  // ---------------------------------------------------------------------
  // The rewrites stringToInfix applies before scanning
  // ---------------------------------------------------------------------

  function LowerChar(c: char): char {
    if IsUpper(c) then (c as int + 32) as char else c
  }

  /**
   * `toLowerCase`, on the ASCII letters: each upper-case letter becomes the
   * character 32 code points above it, and every other character is kept.
   */
  function ToLower(s: string): (r: string)
    ensures |r| == |s|
    ensures forall k :: 0 <= k < |s| ==> r[k] as int == s[k] as int + (if IsUpper(s[k]) then 32 else 0)
    ensures forall k :: 0 <= k < |r| ==> !IsUpper(r[k])
    ensures forall k :: 0 <= k < |r| ==> r[k] == s[k] || (IsUpper(s[k]) && IsLower(r[k]))
  {
    seq(|s|, k requires 0 <= k < |s| => LowerChar(s[k]))
  }

  /** If `s` has an `x` at `k`, it sits between a `(` and a `)`. */
  predicate XSafe(s: string, k: int)
    requires 0 <= k < |s|
  {
    s[k] == 'x' ==> 0 < k < |s| - 1 && s[k - 1] == '(' && s[k + 1] == ')'
  }

  /** Every `x` of `s` sits between a `(` and a `)`. */
  predicate XWrapped(s: string) {
    forall k :: 0 <= k < |s| ==> XSafe(s, k)
  }

  /** The pair at `k` has no `x` without its parenthesis next to it. */
  predicate PairSafe(s: string, k: int)
    requires 0 <= k < |s| - 1
  {
    (s[k + 1] == 'x' ==> s[k] == '(') && (s[k] == 'x' ==> s[k + 1] == ')')
  }

  /** The part of `XWrapped` about adjacent pairs, which every suffix keeps. */
  predicate XPaired(s: string) {
    forall k :: 0 <= k < |s| - 1 ==> PairSafe(s, k)
  }

  lemma XPairedSuffix(s: string, n: nat)
    requires n <= |s| && XPaired(s)
    ensures XPaired(s[n..])
  {
    forall k | 0 <= k < |s[n..]| - 1
      ensures PairSafe(s[n..], k)
    {
      assert s[n..][k] == s[n + k] && s[n..][k + 1] == s[n + k + 1];
      assert PairSafe(s, n + k);
    }
  }

  /** Joining two texts keeps every `x` between its parentheses when the seam does. */
  lemma XPairedConcat(a: string, b: string)
    requires XPaired(a) && XPaired(b)
    requires |a| > 0 && |b| > 0 ==> (b[0] == 'x' ==> a[|a| - 1] == '(') && (a[|a| - 1] == 'x' ==> b[0] == ')')
    ensures XPaired(a + b)
  {
    var r := a + b;
    forall k | 0 <= k < |r| - 1
      ensures PairSafe(r, k)
    {
      if k + 1 < |a| {
        assert r[k] == a[k] && r[k + 1] == a[k + 1] && PairSafe(a, k);
      } else if k >= |a| {
        assert r[k] == b[k - |a|] && r[k + 1] == b[k - |a| + 1] && PairSafe(b, k - |a|);
      }
    }
  }

  lemma WrappedPaired(s: string)
    requires XWrapped(s)
    ensures XPaired(s)
  {
    forall k | 0 <= k < |s| - 1
      ensures PairSafe(s, k)
    {
      assert XSafe(s, k) && XSafe(s, k + 1);
    }
  }

  lemma PairedWrapped(s: string)
    requires XPaired(s) && |s| > 0 && s[0] != 'x' && s[|s| - 1] != 'x'
    ensures XWrapped(s)
  {
    forall k | 0 <= k < |s|
      ensures XSafe(s, k)
    {
      if s[k] == 'x' {
        assert 0 < k < |s| - 1;
        assert PairSafe(s, k - 1) && PairSafe(s, k);
      }
    }
  }

  lemma XWrappedConcat(a: string, b: string)
    requires XWrapped(a) && XWrapped(b)
    ensures XWrapped(a + b)
  {
    var r := a + b;
    forall k | 0 <= k < |r|
      ensures XSafe(r, k)
    {
      if k < |a| {
        assert r[k] == a[k] && XSafe(a, k);
        if a[k] == 'x' {
          assert r[k - 1] == a[k - 1] && r[k + 1] == a[k + 1];
        }
      } else {
        assert r[k] == b[k - |a|] && XSafe(b, k - |a|);
        if b[k - |a|] == 'x' {
          assert r[k - 1] == b[k - |a| - 1] && r[k + 1] == b[k - |a| + 1];
        }
      }
    }
  }

  /** `replace(/x/g, "(x)")`: every variable ends up wrapped in its own parentheses. */
  function ParenthesizeX(s: string): (r: string)
    ensures |s| > 0 ==> |r| > 0 && (r[0] == s[0] || (s[0] == 'x' && r[0] == '('))
    ensures |s| > 0 && s[|s| - 1] != 'x' ==> r[|r| - 1] == s[|s| - 1]
    ensures XWrapped(r)
    ensures forall k :: 0 <= k < |r| ==> r[k] in s || r[k] == '(' || r[k] == ')'
  {
    if s == [] then []
    else
      var head := if s[0] == 'x' then "(x)" else [s[0]];
      assert XSafe(head, 0) && (|head| == 3 ==> XSafe(head, 1) && XSafe(head, 2));
      XWrappedConcat(head, ParenthesizeX(s[1..]));
      head + ParenthesizeX(s[1..])
  }

  /** The inverse rewrite: every `(x)` back to `x`, left to right. */
  function Unparen(s: string): string {
    if |s| >= 3 && s[0] == '(' && s[1] == 'x' && s[2] == ')' then "x" + Unparen(s[3..])
    else if s == [] then []
    else [s[0]] + Unparen(s[1..])
  }

  /** Wrapping the variables loses nothing: `Unparen` recovers the text. */
  lemma {:induction false} UnparenParenthesizeX(s: string)
    ensures Unparen(ParenthesizeX(s)) == s
  {
    if s != [] {
      var rest := ParenthesizeX(s[1..]);
      UnparenParenthesizeX(s[1..]);
      assert s == [s[0]] + s[1..];
      if s[0] == 'x' {
        var r := "(x)" + rest;
        assert ParenthesizeX(s) == r;
        assert r[3..] == rest;
      } else {
        var r := [s[0]] + rest;
        assert ParenthesizeX(s) == r;
        assert r[1..] == rest;
      }
    }
  }

  /** `replace(/\s+/g, '')`: the white space goes, every other character stays, in order. */
  function RemoveWhitespace(s: string): (r: string)
    ensures |r| <= |s|
    ensures forall k :: 0 <= k < |r| ==> !IsWhitespace(r[k]) && r[k] in s
    ensures forall c :: c in s && !IsWhitespace(c) ==> c in r
    ensures |s| > 0 && !IsWhitespace(s[0]) ==> |r| > 0 && r[0] == s[0]
    ensures |s| > 0 && !IsWhitespace(s[|s| - 1]) ==> |r| > 0 && r[|r| - 1] == s[|s| - 1]
  {
    if s == [] then []
    else (if IsWhitespace(s[0]) then [] else [s[0]]) + RemoveWhitespace(s[1..])
  }

  /** How often each character occurs after removing white space: never for white space, as often as before otherwise. */
  lemma {:induction false} RemoveWhitespaceCounts(s: string)
    ensures forall c :: multiset(RemoveWhitespace(s))[c] == (if IsWhitespace(c) then 0 else multiset(s)[c])
  {
    if s != [] {
      RemoveWhitespaceCounts(s[1..]);
      var head := if IsWhitespace(s[0]) then [] else [s[0]];
      assert RemoveWhitespace(s) == head + RemoveWhitespace(s[1..]);
      assert s == [s[0]] + s[1..];
      assert multiset(s) == multiset([s[0]]) + multiset(s[1..]);
      assert multiset(RemoveWhitespace(s)) == multiset(head) + multiset(RemoveWhitespace(s[1..]));
    }
  }

  /** Removing white space works piece by piece, so the order of what stays is the order in `s`. */
  lemma {:induction false} RemoveWhitespaceConcat(a: string, b: string)
    ensures RemoveWhitespace(a + b) == RemoveWhitespace(a) + RemoveWhitespace(b)
  {
    if a == [] {
      assert a + b == b;
    } else {
      assert (a + b)[1..] == a[1..] + b;
      RemoveWhitespaceConcat(a[1..], b);
    }
  }

  /** If the first character left after removing white space is an `x`, it was first already. */
  lemma {:induction false} FirstVisibleX(t: string)
    requires XPaired(t)
    ensures |RemoveWhitespace(t)| > 0 && RemoveWhitespace(t)[0] == 'x' ==> t[0] == 'x'
  {
    if t != [] && IsWhitespace(t[0]) {
      assert RemoveWhitespace(t) == RemoveWhitespace(t[1..]);
      XPairedSuffix(t, 1);
      FirstVisibleX(t[1..]);
      if |t| >= 2 {
        assert PairSafe(t, 0);
      }
    }
  }

  /** Removing white space keeps every `x` between its parentheses. */
  lemma {:induction false} RemoveWhitespaceKeepsX(s: string)
    requires XPaired(s)
    ensures XPaired(RemoveWhitespace(s))
  {
    if s != [] {
      var rest := RemoveWhitespace(s[1..]);
      XPairedSuffix(s, 1);
      RemoveWhitespaceKeepsX(s[1..]);
      if !IsWhitespace(s[0]) {
        var r := [s[0]] + rest;
        assert RemoveWhitespace(s) == r;
        if rest != [] && rest[0] == 'x' {
          FirstVisibleX(s[1..]);
        }
        if |s| >= 2 {
          assert PairSafe(s, 0);
        }
        XPairedConcat([s[0]], rest);
      } else {
        assert RemoveWhitespace(s) == rest;
      }
    }
  }

  /** `s` has `(-` at `k`. */
  predicate NegationAt(s: string, k: int) {
    0 <= k < |s| - 1 && s[k] == '(' && s[k + 1] == '-'
  }

  /** `s` has `1)*` right after position `k + 1`. */
  predicate ExpandedAt(s: string, k: int) {
    0 <= k && k + 4 < |s| && s[k + 2] == '1' && s[k + 3] == ')' && s[k + 4] == '*'
  }

  /** Every `(-` of `s` is the start of `(-1)*`. */
  predicate NegationsExpanded(s: string) {
    forall k :: 0 <= k < |s| && NegationAt(s, k) ==> ExpandedAt(s, k)
  }

  lemma NegationsExpandedSuffix(s: string, n: nat)
    requires n <= |s| && NegationsExpanded(s)
    ensures NegationsExpanded(s[n..])
  {
    forall k | NegationAt(s[n..], k)
      ensures ExpandedAt(s[n..], k)
    {
      assert s[n..][k] == s[n + k] && s[n..][k + 1] == s[n + k + 1];
      assert NegationAt(s, n + k);
    }
  }

  /**
   * `replace(/\(\-/g, "((-1)*")`: a minus sign right after an opening
   * parenthesis becomes a multiplication by minus one, so afterwards every
   * `(-` is the start of `(-1)*`.
   */
  function ReplaceNegation(s: string): (r: string)
    ensures |s| > 0 ==> |r| > 0 && r[0] == s[0]
    ensures |r| >= 2 ==> !(r[0] == '(' && r[1] == '-')
    ensures |s| > 0 && s[|s| - 1] == ')' ==> r[|r| - 1] == ')'
    ensures NegationsExpanded(r)
    ensures forall k :: 0 <= k < |r| ==> r[k] in s || Inserted(r[k])
  {
    if |s| >= 2 && s[0] == '(' && s[1] == '-' then
      var rest := ReplaceNegation(s[2..]);
      assert ExpandedAt("((-1)*", 1);
      NegationsConcat("((-1)*", rest);
      "((-1)*" + rest
    else if s == [] then []
    else
      var rest := ReplaceNegation(s[1..]);
      NegationsConcat([s[0]], rest);
      [s[0]] + rest
  }

  /** Joining two texts without `(-` across the seam keeps every `(-` expanded. */
  lemma NegationsConcat(a: string, b: string)
    requires NegationsExpanded(a) && NegationsExpanded(b)
    requires |a| > 0 && |b| > 0 ==> !(a[|a| - 1] == '(' && b[0] == '-')
    ensures NegationsExpanded(a + b)
  {
    var r := a + b;
    forall k | 0 <= k < |r| && NegationAt(r, k)
      ensures ExpandedAt(r, k)
    {
      if k >= |a| {
        assert r[k] == b[k - |a|] && r[k + 1] == b[k - |a| + 1];
        assert NegationAt(b, k - |a|);
      } else {
        assert k + 1 < |a|;
        assert NegationAt(a, k);
      }
    }
  }

  /** The inverse rewrite: every `((-1)*` back to `(-`, left to right. */
  function RestoreNegation(s: string): string {
    if |s| >= 6 && s[0] == '(' && s[1] == '(' && s[2] == '-' && s[3] == '1' && s[4] == ')' && s[5] == '*' then
      "(-" + RestoreNegation(s[6..])
    else if s == [] then []
    else [s[0]] + RestoreNegation(s[1..])
  }

  /** Expanding the negations loses nothing: `RestoreNegation` recovers the text. */
  lemma {:induction false} RestoreReplaceNegation(s: string)
    ensures RestoreNegation(ReplaceNegation(s)) == s
  {
    if |s| >= 2 && s[0] == '(' && s[1] == '-' {
      RestoreReplaceNegation(s[2..]);
      RestoreExpanded(s, ReplaceNegation(s[2..]));
    } else if s != [] {
      RestoreReplaceNegation(s[1..]);
      RestoreKept(s, ReplaceNegation(s[1..]));
    }
  }

  lemma RestoreExpanded(s: string, rest: string)
    requires |s| >= 2 && s[0] == '(' && s[1] == '-'
    requires RestoreNegation(rest) == s[2..]
    ensures RestoreNegation("((-1)*" + rest) == s
  {
    var r := "((-1)*" + rest;
    assert r[6..] == rest;
    assert s == "(-" + s[2..];
  }

  lemma RestoreKept(s: string, rest: string)
    requires |s| >= 1 && !(|s| >= 2 && s[0] == '(' && s[1] == '-')
    requires RestoreNegation(rest) == s[1..]
    requires |s| >= 2 ==> |rest| > 0 && rest[0] == s[1]
    requires |rest| >= 2 ==> !(rest[0] == '(' && rest[1] == '-')
    ensures RestoreNegation([s[0]] + rest) == s
  {
    var r := [s[0]] + rest;
    assert r[1..] == rest;
    assert s == [s[0]] + s[1..];
  }

  /** Expanding the negations keeps every `x` between its parentheses. */
  lemma {:induction false} ReplaceNegationKeepsX(s: string)
    requires XPaired(s)
    ensures XPaired(ReplaceNegation(s))
  {
    if |s| >= 2 && s[0] == '(' && s[1] == '-' {
      var rest := ReplaceNegation(s[2..]);
      XPairedSuffix(s, 2);
      ReplaceNegationKeepsX(s[2..]);
      var r := "((-1)*" + rest;
      assert ReplaceNegation(s) == r;
      if |s| > 2 {
        assert PairSafe(s, 1);
      }
      XPairedConcat("((-1)*", rest);
    } else if s != [] {
      var rest := ReplaceNegation(s[1..]);
      XPairedSuffix(s, 1);
      ReplaceNegationKeepsX(s[1..]);
      var r := [s[0]] + rest;
      assert ReplaceNegation(s) == r;
      if |s| >= 2 {
        assert PairSafe(s, 0);
      }
      XPairedConcat([s[0]], rest);
    }
  }

  /** The characters the rewrites insert. */
  predicate Inserted(c: char) { c == '(' || c == '-' || c == '1' || c == ')' || c == '*' }

  /** The four implied-multiplication rewrites, each a pair of adjacent characters. */
  datatype Pattern = DigitLetter | CloseOpen | DigitOpen | CloseLetter

  predicate Joins(p: Pattern, a: char, b: char) {
    match p
    case DigitLetter => IsDigit(a) && IsLower(b)
    case CloseOpen => a == ')' && b == '('
    case DigitOpen => IsDigit(a) && b == '('
    case CloseLetter => a == ')' && IsLower(b)
  }

  /** No adjacent pair of `s` is one that `p` matches. */
  predicate NoJoins(s: string, p: Pattern) {
    forall k :: 0 <= k < |s| - 1 ==> !Joins(p, s[k], s[k + 1])
  }

  /** The characters of `s` other than `*`, in order. */
  function WithoutStars(s: string): string {
    if s == [] then [] else (if s[0] == '*' then [] else [s[0]]) + WithoutStars(s[1..])
  }

  /** The number of adjacent pairs of `s` that `p` matches. */
  function JoinCount(s: string, p: Pattern): nat {
    if |s| < 2 then 0 else (if Joins(p, s[0], s[1]) then 1 else 0) + JoinCount(s[1..], p)
  }

  /**
   * `replace(/([0-9])([a-z])/g, "$1*$2")` and its three siblings. The second
   * character of a match can never begin another match, so the global,
   * non-overlapping replacement puts a `*` between every adjacent pair the
   * pattern matches and changes nothing else (`InsertStarsPlaces`).
   */
  function InsertStars(s: string, p: Pattern): (r: string)
    ensures |r| == |s| + JoinCount(s, p)
    ensures |s| > 0 ==> r[0] == s[0] && r[|r| - 1] == s[|s| - 1]
    ensures NoJoins(r, p)
    ensures forall k :: 0 <= k < |r| ==> r[k] in s || r[k] == '*'
  {
    if |s| < 2 then s
    else
      var rest := InsertStars(s[1..], p);
      var head := if Joins(p, s[0], s[1]) then [s[0], '*'] else [s[0]];
      StarsJoined(s, p, head, rest);
      head + rest
  }

  /** One step of `InsertStars` keeps the pairs apart and every character in place. */
  lemma StarsJoined(s: string, p: Pattern, head: string, rest: string)
    requires |s| >= 2 && head == (if Joins(p, s[0], s[1]) then [s[0], '*'] else [s[0]])
    requires |rest| > 0 && rest[0] == s[1] && rest[|rest| - 1] == s[|s| - 1]
    requires NoJoins(rest, p)
    requires forall k :: 0 <= k < |rest| ==> rest[k] in s[1..] || rest[k] == '*'
    ensures (head + rest)[0] == s[0] && (head + rest)[|head + rest| - 1] == s[|s| - 1]
    ensures NoJoins(head + rest, p)
    ensures forall k :: 0 <= k < |head + rest| ==> (head + rest)[k] in s || (head + rest)[k] == '*'
  {
    var r := head + rest;
    forall k | 0 <= k < |r| - 1
      ensures !Joins(p, r[k], r[k + 1])
    {
      if k >= |head| {
        assert r[k] == rest[k - |head|] && r[k + 1] == rest[k - |head| + 1];
      }
    }
    forall k | 0 <= k < |r|
      ensures r[k] in s || r[k] == '*'
    {
      if k >= |head| {
        assert r[k] == rest[k - |head|];
      }
    }
  }

  lemma {:induction false} WithoutStarsConcat(a: string, b: string)
    ensures WithoutStars(a + b) == WithoutStars(a) + WithoutStars(b)
  {
    if a == [] {
      assert a + b == b;
    } else {
      assert (a + b)[1..] == a[1..] + b;
      WithoutStarsConcat(a[1..], b);
    }
  }

  /** `InsertStars` adds only stars: without them, the result is the input without its stars. */
  lemma {:induction false} InsertStarsOnlyAddsStars(s: string, p: Pattern)
    ensures WithoutStars(InsertStars(s, p)) == WithoutStars(s)
  {
    if |s| >= 2 {
      InsertStarsOnlyAddsStars(s[1..], p);
      InsertStarsUnfold(s, p);
      StarsDropped(s, if Joins(p, s[0], s[1]) then [s[0], '*'] else [s[0]], InsertStars(s[1..], p));
    }
  }

  /** Dropping the stars of one step of `InsertStars`. */
  lemma StarsDropped(s: string, head: string, rest: string)
    requires |s| >= 1 && (head == [s[0]] || head == [s[0], '*'])
    requires WithoutStars(rest) == WithoutStars(s[1..])
    ensures WithoutStars(head + rest) == WithoutStars(s)
  {
    assert s == [s[0]] + s[1..];
    WithoutStarsConcat([s[0]], s[1..]);
    WithoutStarsConcat(head, rest);
    if |head| == 2 {
      assert head == [s[0]] + ['*'];
      WithoutStarsConcat([s[0]], ['*']);
      assert WithoutStars(['*']) == [] by {
        assert ['*'][1..] == [];
      }
    }
  }

  /** Where `s[i]` lands in `InsertStars(s, p)`: moved right by one for each match up to it. */
  function Landing(s: string, p: Pattern, i: nat): nat
    requires i < |s|
  {
    i + JoinCount(s[..i + 1], p)
  }

  lemma LandingStep(s: string, p: Pattern, i: nat)
    requires 1 <= i < |s|
    ensures Landing(s, p, i) == (if Joins(p, s[0], s[1]) then 2 else 1) + Landing(s[1..], p, i - 1)
  {
    var t := s[..i + 1];
    assert t[0] == s[0] && t[1] == s[1];
    assert t[1..] == s[1..][..i];
  }

  /** One step of `InsertStars`: the head of `s`, a `*` if its first pair matches, then the rest. */
  lemma InsertStarsUnfold(s: string, p: Pattern)
    requires |s| >= 2
    ensures InsertStars(s, p) == (if Joins(p, s[0], s[1]) then [s[0], '*'] else [s[0]]) + InsertStars(s[1..], p)
  {
  }

  /** `InsertStars` keeps every character of `s`, in order, each at its `Landing` place. */
  lemma {:induction false} InsertStarsPlaces(s: string, p: Pattern)
    ensures forall i :: 0 <= i < |s| ==>
      Landing(s, p, i) < |InsertStars(s, p)| && InsertStars(s, p)[Landing(s, p, i)] == s[i]
  {
    if |s| == 1 {
      assert s[..1] == s;
    } else if |s| >= 2 {
      InsertStarsPlaces(s[1..], p);
      InsertStarsUnfold(s, p);
      PlacesStep(s, p, if Joins(p, s[0], s[1]) then [s[0], '*'] else [s[0]], InsertStars(s[1..], p));
    }
  }

  lemma PlacesStep(s: string, p: Pattern, head: string, rest: string)
    requires |s| >= 2 && head == (if Joins(p, s[0], s[1]) then [s[0], '*'] else [s[0]])
    requires forall i :: 0 <= i < |s[1..]| ==>
      Landing(s[1..], p, i) < |rest| && rest[Landing(s[1..], p, i)] == s[1..][i]
    ensures forall i :: 0 <= i < |s| ==>
      Landing(s, p, i) < |head + rest| && (head + rest)[Landing(s, p, i)] == s[i]
  {
    var r := head + rest;
    assert Landing(s, p, 0) == 0 by {
      assert |s[..1]| == 1;
    }
    forall i | 1 <= i < |s|
      ensures Landing(s, p, i) < |r| && r[Landing(s, p, i)] == s[i]
    {
      LandingStep(s, p, i);
      assert s[1..][i - 1] == s[i];
    }
  }

  /**
   * `InsertStars` puts a `*` right after the first character of each match;
   * with `InsertStarsPlaces` and the length in its contract, nothing else is
   * in the result.
   */
  lemma {:induction false} InsertStarsMarksMatches(s: string, p: Pattern)
    ensures forall i :: 0 <= i < |s| - 1 && Joins(p, s[i], s[i + 1]) ==>
      Landing(s, p, i) + 1 < |InsertStars(s, p)| && InsertStars(s, p)[Landing(s, p, i) + 1] == '*'
  {
    if |s| >= 2 {
      InsertStarsMarksMatches(s[1..], p);
      InsertStarsUnfold(s, p);
      MarksStep(s, p, if Joins(p, s[0], s[1]) then [s[0], '*'] else [s[0]], InsertStars(s[1..], p));
    }
  }

  lemma MarksStep(s: string, p: Pattern, head: string, rest: string)
    requires |s| >= 2 && head == (if Joins(p, s[0], s[1]) then [s[0], '*'] else [s[0]])
    requires forall i :: 0 <= i < |s[1..]| - 1 && Joins(p, s[1..][i], s[1..][i + 1]) ==>
      Landing(s[1..], p, i) + 1 < |rest| && rest[Landing(s[1..], p, i) + 1] == '*'
    ensures forall i :: 0 <= i < |s| - 1 && Joins(p, s[i], s[i + 1]) ==>
      Landing(s, p, i) + 1 < |head + rest| && (head + rest)[Landing(s, p, i) + 1] == '*'
  {
    var r := head + rest;
    assert Landing(s, p, 0) == 0 by {
      assert |s[..1]| == 1;
    }
    forall i | 1 <= i < |s| - 1 && Joins(p, s[i], s[i + 1])
      ensures Landing(s, p, i) + 1 < |r| && r[Landing(s, p, i) + 1] == '*'
    {
      LandingStep(s, p, i);
      assert s[1..][i - 1] == s[i] && s[1..][i] == s[i + 1];
    }
  }

  /** `InsertStars` leaves a leading `-1)*` as it is: no pattern matches inside it. */
  lemma NegationKept(t: string, p: Pattern)
    requires |t| >= 4 && t[0] == '-' && t[1] == '1' && t[2] == ')' && t[3] == '*'
    ensures |InsertStars(t, p)| >= 4
    ensures InsertStars(t, p)[1] == '1' && InsertStars(t, p)[2] == ')' && InsertStars(t, p)[3] == '*'
  {
    InsertStarsUnfold(t, p);
    InsertStarsUnfold(t[1..], p);
    InsertStarsUnfold(t[2..], p);
    assert t[1..][1..] == t[2..] && t[2..][1..] == t[3..];
  }

  /** Inserting stars keeps every `x` between its parentheses. */
  lemma {:induction false} InsertStarsKeepsX(s: string, p: Pattern)
    ensures XPaired(s) ==> XPaired(InsertStars(s, p))
  {
    if |s| >= 2 && XPaired(s) {
      XPairedSuffix(s, 1);
      InsertStarsKeepsX(s[1..], p);
      InsertStarsUnfold(s, p);
      XStep(s, p, if Joins(p, s[0], s[1]) then [s[0], '*'] else [s[0]], InsertStars(s[1..], p));
    }
  }

  lemma XStep(s: string, p: Pattern, head: string, rest: string)
    requires |s| >= 2 && head == (if Joins(p, s[0], s[1]) then [s[0], '*'] else [s[0]])
    requires XPaired(s) && XPaired(rest) && |rest| > 0 && rest[0] == s[1]
    ensures XPaired(head + rest)
  {
    assert PairSafe(s, 0);
    assert |head| == 2 ==> PairSafe(head, 0);
    XPairedConcat(head, rest);
  }

  /** Inserting stars keeps every `(-` at the start of `(-1)*`. */
  lemma {:induction false} InsertStarsKeepsNegations(s: string, p: Pattern)
    ensures NegationsExpanded(s) ==> NegationsExpanded(InsertStars(s, p))
  {
    if |s| >= 2 && NegationsExpanded(s) {
      NegationsExpandedSuffix(s, 1);
      InsertStarsKeepsNegations(s[1..], p);
      InsertStarsUnfold(s, p);
      if NegationAt(s, 0) {
        assert ExpandedAt(s, 0);
        NegationKept(s[1..], p);
      }
      NegationsStep(s, p, if Joins(p, s[0], s[1]) then [s[0], '*'] else [s[0]], InsertStars(s[1..], p));
    }
  }

  lemma NegationsStep(s: string, p: Pattern, head: string, rest: string)
    requires |s| >= 2 && head == (if Joins(p, s[0], s[1]) then [s[0], '*'] else [s[0]])
    requires NegationsExpanded(s) && NegationsExpanded(rest) && |rest| > 0 && rest[0] == s[1]
    requires NegationAt(s, 0) ==> |rest| >= 4 && rest[1] == '1' && rest[2] == ')' && rest[3] == '*'
    ensures NegationsExpanded(head + rest)
  {
    var r := head + rest;
    forall k | NegationAt(r, k)
      ensures ExpandedAt(r, k)
    {
      if k >= |head| {
        assert r[k] == rest[k - |head|] && r[k + 1] == rest[k - |head| + 1];
        assert NegationAt(rest, k - |head|);
      } else {
        assert NegationAt(s, 0);
        assert k == 0 && |head| == 1;
        assert r[2] == rest[1] && r[3] == rest[2] && r[4] == rest[3];
      }
    }
  }

  lemma StarNeverJoins(p: Pattern, c: char)
    ensures !Joins(p, c, '*') && !Joins(p, '*', c)
  {
  }

  /** Inserting stars for one pattern never creates a match of another. */
  lemma {:induction false} InsertStarsKeepsNoJoins(s: string, p: Pattern, q: Pattern)
    ensures NoJoins(s, p) ==> NoJoins(InsertStars(s, q), p)
  {
    if |s| >= 2 && NoJoins(s, p) {
      InsertStarsKeepsNoJoins(s[1..], p, q);
      InsertStarsUnfold(s, q);
      NoJoinsStep(s, p, q, if Joins(q, s[0], s[1]) then [s[0], '*'] else [s[0]], InsertStars(s[1..], q));
    }
  }

  lemma NoJoinsStep(s: string, p: Pattern, q: Pattern, head: string, rest: string)
    requires |s| >= 2 && head == (if Joins(q, s[0], s[1]) then [s[0], '*'] else [s[0]])
    requires NoJoins(s, p) && NoJoins(rest, p) && |rest| > 0 && rest[0] == s[1]
    ensures NoJoins(head + rest, p)
  {
    var r := head + rest;
    StarNeverJoins(p, s[0]);
    StarNeverJoins(p, s[1]);
    assert !Joins(p, s[0], s[1]);
    forall k | 0 <= k < |r| - 1
      ensures !Joins(p, r[k], r[k + 1])
    {
      if k >= |head| {
        assert r[k] == rest[k - |head|] && r[k + 1] == rest[k - |head| + 1];
      } else if k == |head| - 1 {
        assert r[k + 1] == s[1];
      }
    }
  }

  /** A character that survives the rewrites: no white space and no upper-case letter. */
  predicate Plain(c: char) { !IsWhitespace(c) && !IsUpper(c) }

  /** If every character of `r` comes from `s` or is inserted, and `s` is plain, so is `r`. */
  lemma PlainCarried(r: string, s: string)
    requires forall k :: 0 <= k < |r| ==> r[k] in s || Inserted(r[k])
    requires forall k :: 0 <= k < |s| ==> Plain(s[k])
    ensures forall k :: 0 <= k < |r| ==> Plain(r[k])
  {
    forall k | 0 <= k < |r| && r[k] in s
      ensures Plain(r[k])
    {
      var j :| 0 <= j < |s| && s[j] == r[k];
    }
  }

  /**
   * The equation lower-cased, wrapped in parentheses, its variables
   * parenthesized and its white space removed.
   */
  function Compact(equation: string): (r: string)
    ensures |r| > 0 && r[0] == '(' && r[|r| - 1] == ')'
    ensures forall k :: 0 <= k < |r| ==> Plain(r[k])
    ensures XWrapped(r)
  {
    var lowered := ToLower(equation);
    var wrapped := "(" + lowered + ")";
    var parenthesized := ParenthesizeX(wrapped);
    CompactPlain(lowered, wrapped, parenthesized);
    var compact := RemoveWhitespace(parenthesized);
    CompactX(wrapped, parenthesized, compact);
    compact
  }

  lemma CompactPlain(lowered: string, wrapped: string, parenthesized: string)
    requires forall k :: 0 <= k < |lowered| ==> !IsUpper(lowered[k])
    requires wrapped == "(" + lowered + ")"
    requires parenthesized == ParenthesizeX(wrapped)
    ensures forall k :: 0 <= k < |RemoveWhitespace(parenthesized)| ==> Plain(RemoveWhitespace(parenthesized)[k])
  {
    assert forall k :: 0 <= k < |wrapped| ==> !IsUpper(wrapped[k]) by {
      assert forall k :: 1 <= k < |wrapped| - 1 ==> wrapped[k] == lowered[k - 1];
    }
    NoUpperCarried(wrapped, parenthesized);
    PlainAfterRemoval(parenthesized);
  }

  lemma NoUpperCarried(wrapped: string, parenthesized: string)
    requires forall k :: 0 <= k < |wrapped| ==> !IsUpper(wrapped[k])
    requires forall k :: 0 <= k < |parenthesized| ==> parenthesized[k] in wrapped || parenthesized[k] == '(' || parenthesized[k] == ')'
    ensures forall k :: 0 <= k < |parenthesized| ==> !IsUpper(parenthesized[k])
  {
    forall k | 0 <= k < |parenthesized|
      ensures !IsUpper(parenthesized[k])
    {
      if parenthesized[k] in wrapped {
        var j :| 0 <= j < |wrapped| && wrapped[j] == parenthesized[k];
      }
    }
  }

  lemma PlainAfterRemoval(s: string)
    requires forall k :: 0 <= k < |s| ==> !IsUpper(s[k])
    ensures forall k :: 0 <= k < |RemoveWhitespace(s)| ==> Plain(RemoveWhitespace(s)[k])
  {
    var r := RemoveWhitespace(s);
    forall k | 0 <= k < |r|
      ensures Plain(r[k])
    {
      var j :| 0 <= j < |s| && s[j] == r[k];
    }
  }

  lemma CompactX(wrapped: string, parenthesized: string, compact: string)
    requires |wrapped| > 0 && wrapped[0] == '(' && wrapped[|wrapped| - 1] == ')'
    requires parenthesized == ParenthesizeX(wrapped)
    requires compact == RemoveWhitespace(parenthesized)
    ensures |compact| > 0 && compact[0] == '(' && compact[|compact| - 1] == ')'
    ensures XWrapped(compact)
  {
    WrappedPaired(parenthesized);
    RemoveWhitespaceKeepsX(parenthesized);
    assert parenthesized[0] == '(' && parenthesized[|parenthesized| - 1] == ')';
    PairedWrapped(compact);
  }

  /**
   * The four implied-multiplication rewrites, in the order the source applies
   * them. Afterwards none of the four patterns matches anywhere: a `*` next
   * to a character never completes a match.
   */
  function Starred(s: string): (r: string)
    requires forall k :: 0 <= k < |s| ==> Plain(s[k])
    ensures |s| > 0 ==> |r| > 0 && r[0] == s[0] && r[|r| - 1] == s[|s| - 1]
    ensures forall k :: 0 <= k < |r| ==> Plain(r[k])
    ensures forall p :: NoJoins(r, p)
    ensures XPaired(s) ==> XPaired(r)
    ensures NegationsExpanded(s) ==> NegationsExpanded(r)
  {
    var starred1 := InsertStars(s, DigitLetter);
    PlainCarried(starred1, s);
    var starred2 := InsertStars(starred1, CloseOpen);
    PlainCarried(starred2, starred1);
    var starred3 := InsertStars(starred2, DigitOpen);
    PlainCarried(starred3, starred2);
    var r := InsertStars(starred3, CloseLetter);
    PlainCarried(r, starred3);
    StarredKeeps(s, starred1, starred2, starred3, r);
    r
  }

  lemma StarredKeeps(s: string, starred1: string, starred2: string, starred3: string, r: string)
    requires starred1 == InsertStars(s, DigitLetter)
    requires starred2 == InsertStars(starred1, CloseOpen)
    requires starred3 == InsertStars(starred2, DigitOpen)
    requires r == InsertStars(starred3, CloseLetter)
    ensures forall p :: NoJoins(r, p)
    ensures XPaired(s) ==> XPaired(r)
    ensures NegationsExpanded(s) ==> NegationsExpanded(r)
  {
    InsertStarsKeepsNoJoins(starred1, DigitLetter, CloseOpen);
    InsertStarsKeepsNoJoins(starred2, DigitLetter, DigitOpen);
    InsertStarsKeepsNoJoins(starred2, CloseOpen, DigitOpen);
    InsertStarsKeepsNoJoins(starred3, DigitLetter, CloseLetter);
    InsertStarsKeepsNoJoins(starred3, CloseOpen, CloseLetter);
    InsertStarsKeepsNoJoins(starred3, DigitOpen, CloseLetter);
    forall p
      ensures NoJoins(r, p)
    {
      match p
      case DigitLetter =>
      case CloseOpen =>
      case DigitOpen =>
      case CloseLetter =>
    }
    InsertStarsKeepsX(s, DigitLetter);
    InsertStarsKeepsX(starred1, CloseOpen);
    InsertStarsKeepsX(starred2, DigitOpen);
    InsertStarsKeepsX(starred3, CloseLetter);
    InsertStarsKeepsNegations(s, DigitLetter);
    InsertStarsKeepsNegations(starred1, CloseOpen);
    InsertStarsKeepsNegations(starred2, DigitOpen);
    InsertStarsKeepsNegations(starred3, CloseLetter);
  }

  /**
   * All the rewrites of stringToInfix, in the order the source applies them.
   * The result is wrapped in parentheses, every `x` sits in its own pair of
   * parentheses, every `(-` is the start of `(-1)*`, and no implied
   * multiplication is left without its `*`.
   */
  function Rewrite(equation: string): (r: string)
    ensures |r| > 0 && r[0] == '(' && r[|r| - 1] == ')'
    ensures forall k :: 0 <= k < |r| ==> Plain(r[k])
    ensures XWrapped(r)
    ensures NegationsExpanded(r)
    ensures forall p :: NoJoins(r, p)
  {
    var compact := Compact(equation);
    assert |compact| > 0 && compact[0] == '(' && compact[|compact| - 1] == ')' && XWrapped(compact);
    var negations := ReplaceNegation(compact);
    NegationsPlain(compact, negations);
    var r := Starred(negations);
    RewriteX(compact, negations, r);
    r
  }

  lemma NegationsPlain(compact: string, negations: string)
    requires forall k :: 0 <= k < |compact| ==> Plain(compact[k])
    requires negations == ReplaceNegation(compact)
    ensures forall k :: 0 <= k < |negations| ==> Plain(negations[k])
  {
    PlainCarried(negations, compact);
  }

  lemma RewriteX(compact: string, negations: string, r: string)
    requires |compact| > 0 && compact[0] == '(' && compact[|compact| - 1] == ')' && XWrapped(compact)
    requires negations == ReplaceNegation(compact)
    requires |r| > 0 && r[0] == negations[0] && r[|r| - 1] == negations[|negations| - 1]
    requires XPaired(negations) ==> XPaired(r)
    ensures r[0] == '(' && r[|r| - 1] == ')'
    ensures XWrapped(r)
  {
    WrappedPaired(compact);
    ReplaceNegationKeepsX(compact);
    PairedWrapped(r);
  }

  // ---------------------------------------------------------------------
  // Reading one token
  // ---------------------------------------------------------------------

  /** The end of the run of lower-case letters that starts at `i`. */
  function LetterEnd(s: string, i: nat): (e: nat)
    requires i <= |s|
    ensures i <= e <= |s|
    ensures forall k :: i <= k < e ==> IsLower(s[k])
    ensures e == |s| || !IsLower(s[e])
    decreases |s| - i
  {
    if i < |s| && IsLower(s[i]) then LetterEnd(s, i + 1) else i
  }

  /** The end of the run of digits and decimal points that starts at `j`. */
  function NumberRunEnd(s: string, j: nat): (e: nat)
    requires j <= |s|
    ensures j <= e <= |s|
    ensures forall k :: j <= k < e ==> IsNumberChar(s[k])
    ensures e == |s| || !IsNumberChar(s[e])
    decreases |s| - j
  {
    if j < |s| && IsNumberChar(s[j]) then NumberRunEnd(s, j + 1) else j
  }

  /** The number of decimal points in `t`. */
  function Dots(t: string): nat {
    if t == [] then 0 else (if t[0] == '.' then 1 else 0) + Dots(t[1..])
  }

  /**
   * The number-scanning loop: from `j`, accept digits and decimal points,
   * failing (`None`, the "too many decimals" error) at a decimal point when
   * one has already been seen.
   */
  function ScanNumber(s: string, j: nat, decimalSeen: bool): (r: Option<nat>)
    requires j <= |s|
    ensures r.Some? ==> j <= r.value <= |s|
    decreases |s| - j
  {
    if j < |s| && IsNumberChar(s[j]) then
      if s[j] == '.' && decimalSeen then None
      else ScanNumber(s, j + 1, decimalSeen || s[j] == '.')
    else
      Some(j)
  }

  /**
   * The scan succeeds exactly when the run of digits and decimal points
   * holds at most one decimal point in all, and then it ends where the run ends.
   */
  lemma {:induction false} ScanNumberMeaning(s: string, j: nat, decimalSeen: bool)
    requires j <= |s|
    ensures ScanNumber(s, j, decimalSeen).Some? <==>
      Dots(s[j..NumberRunEnd(s, j)]) + (if decimalSeen then 1 else 0) <= 1
    ensures ScanNumber(s, j, decimalSeen).Some? ==> ScanNumber(s, j, decimalSeen).value == NumberRunEnd(s, j)
    decreases |s| - j
  {
    if j < |s| && IsNumberChar(s[j]) {
      assert s[j..NumberRunEnd(s, j)][1..] == s[j + 1..NumberRunEnd(s, j + 1)];
      ScanNumberMeaning(s, j + 1, decimalSeen || s[j] == '.');
    }
  }

  /** A `-` at `i` is a subtraction only when a digit or `)` comes right before it. */
  predicate MinusIsSubtraction(s: string, i: nat)
    requires i < |s|
  {
    s[i] == '-' && i > 0 && (IsDigit(s[i - 1]) || s[i - 1] == ')')
  }

  /** Whether the character at `i` is looked up as a name or symbol at all. */
  predicate TriesTable(s: string, i: nat)
    requires i < |s|
  {
    s[i] != '-' || MinusIsSubtraction(s, i)
  }

  /** Whether the token at `i` is read as a number (neither a known name nor a known symbol). */
  predicate ScansNumber(s: string, i: nat)
    requires i < |s|
  {
    !(TriesTable(s, i) && (LetterEnd(s, i) > i || TypeMap([s[i]]).Some?))
  }

  /** Where the digits of a number read at `i` begin: after a negating `-`. */
  function NumberStart(s: string, i: nat): nat
    requires i < |s|
  {
    if s[i] == '-' then i + 1 else i
  }

  /** The number token read at `i`, or the error that reading it throws. */
  function ScanNumberToken(s: string, i: nat): Result<(Token, nat), Error>
    requires i < |s|
  {
    var nStart := NumberStart(s, i);
    match ScanNumber(s, nStart, false)
    case None => Failure(TooManyDecimals(nStart))
    case Some(nEnd) =>
      if nStart == nEnd then Failure(UnknownToken(nStart))
      else
        var num := Literal(s[nStart..nEnd]);
        Success((NewToken(Number, if s[i] == '-' then Negated(num) else num), nEnd))
  }

  /**
   * One iteration of stringToInfix's loop: the token found at `i` and the
   * position after it, or the error thrown there.
   */
  function NextToken(s: string, i: nat): (r: Result<(Token, nat), Error>)
    requires i < |s|
    ensures r.Success? ==> i < r.value.1 <= |s|
  {
    if TriesTable(s, i) && LetterEnd(s, i) > i then
      var word := s[i..LetterEnd(s, i)];
      match TypeMap(word)
      case None => Failure(UnknownFunction(word))
      case Some(t) => Success((NewToken(t, ConstValue(t)), LetterEnd(s, i)))
    else if TriesTable(s, i) && TypeMap([s[i]]).Some? then
      // a single-character symbol; it is never an operand, so it carries no value
      Success((NewToken(TypeMap([s[i]]).value, Undefined), i + 1))
    else
      ScanNumberToken(s, i)
  }

  /** The minus rule: a `-` is read as subtraction exactly when a digit or `)` precedes it, otherwise it negates a number. */
  lemma MinusRule(s: string, i: nat)
    requires i < |s| && s[i] == '-'
    ensures var r := NextToken(s, i);
      && (r.Success? && r.value.0.ty == Sub <==> MinusIsSubtraction(s, i))
      && (!MinusIsSubtraction(s, i) && r.Success? ==> r.value.0.ty == Number && r.value.0.val.Negated?)
  {
  }

  /** The three errors the tokenizer throws, each with exactly the condition that raises it. */
  lemma NextTokenErrors(s: string, i: nat)
    requires i < |s|
    ensures var r := NextToken(s, i);
      && ((r.Failure? && r.error.UnknownFunction?) <==>
           TriesTable(s, i) && LetterEnd(s, i) > i && TypeMap(s[i..LetterEnd(s, i)]).None?)
      && ((r.Failure? && r.error.TooManyDecimals?) <==>
           ScansNumber(s, i) && Dots(s[NumberStart(s, i)..NumberRunEnd(s, NumberStart(s, i))]) >= 2)
      && ((r.Failure? && r.error.UnknownToken?) <==>
           ScansNumber(s, i) && NumberRunEnd(s, NumberStart(s, i)) == NumberStart(s, i))
      && (r.Failure? ==> r.error.UnknownFunction? || r.error.TooManyDecimals? || r.error.UnknownToken?)
  {
    ScanNumberMeaning(s, NumberStart(s, i), false);
  }

  /** A number token spans the whole run of digits and decimal points, which holds at most one decimal point. */
  lemma NumberTokenShape(s: string, i: nat)
    requires i < |s|
    requires NextToken(s, i).Success? && NextToken(s, i).value.0.ty == Number
    ensures ScansNumber(s, i)
    ensures NumberStart(s, i) < NextToken(s, i).value.1 == NumberRunEnd(s, NumberStart(s, i))
    ensures Dots(s[NumberStart(s, i)..NextToken(s, i).value.1]) <= 1
    ensures forall k :: NumberStart(s, i) <= k < NextToken(s, i).value.1 ==> IsNumberChar(s[k])
  {
    ScanNumberMeaning(s, NumberStart(s, i), false);
  }

  /** The tokens of `s` from position `i` on, or the first error. */
  function Lex(s: string, i: nat): (r: Result<seq<Token>, Error>)
    requires i <= |s|
    ensures r.Success? ==> |r.value| <= |s| - i
    decreases |s| - i
  {
    if i == |s| then Success([])
    else
      match NextToken(s, i)
      case Failure(e) => Failure(e)
      case Success((t, j)) =>
        match Lex(s, j)
        case Failure(e) => Failure(e)
        case Success(ts) => Success([t] + ts)
  }

  /** `prefix` followed by the tokens of `r`, or `r`'s error. */
  function Prepend(prefix: seq<Token>, r: Result<seq<Token>, Error>): Result<seq<Token>, Error> {
    match r
    case Failure(e) => Failure(e)
    case Success(ts) => Success(prefix + ts)
  }

  lemma PrependTwice(a: seq<Token>, b: seq<Token>, r: Result<seq<Token>, Error>)
    ensures Prepend(a, Prepend(b, r)) == Prepend(a + b, r)
  {
    if r.Success? {
      assert a + (b + r.value) == (a + b) + r.value;
    }
  }

  /** The tokens from `i` on are the token read at `i` followed by the tokens after it. */
  lemma LexUnfold(s: string, i: nat)
    requires i < |s|
    ensures NextToken(s, i).Failure? ==> Lex(s, i) == Failure(NextToken(s, i).error)
    ensures NextToken(s, i).Success? ==>
      Lex(s, i) == Prepend([NextToken(s, i).value.0], Lex(s, NextToken(s, i).value.1))
  {
  }

  lemma WordStep(s: string, i: nat)
    requires i < |s| && TriesTable(s, i) && LetterEnd(s, i) > i
    ensures TypeMap(s[i..LetterEnd(s, i)]).None? ==>
      NextToken(s, i) == Failure(UnknownFunction(s[i..LetterEnd(s, i)]))
    ensures TypeMap(s[i..LetterEnd(s, i)]).Some? ==>
      var t := TypeMap(s[i..LetterEnd(s, i)]).value;
      NextToken(s, i) == Success((NewToken(t, ConstValue(t)), LetterEnd(s, i)))
  {
  }

  lemma SymbolStep(s: string, i: nat)
    requires i < |s| && TriesTable(s, i) && LetterEnd(s, i) == i && TypeMap([s[i]]).Some?
    ensures NextToken(s, i) == Success((NewToken(TypeMap([s[i]]).value, Undefined), i + 1))
  {
  }

  lemma NumberStep(s: string, i: nat)
    requires i < |s| && ScansNumber(s, i)
    ensures NextToken(s, i) == ScanNumberToken(s, i)
  {
  }

  lemma PrependNothing(r: Result<seq<Token>, Error>)
    ensures Prepend([], r) == r
  {
    if r.Success? {
      assert [] + r.value == r.value;
    }
  }

  /**
   * The body of stringToInfix's loop at position `i`: match a name, else a
   * one-character symbol, else scan a number. Yields the token and the
   * position the loop continues from.
   */
  method ReadToken(s: string, i: nat) returns (r: Result<(Token, nat), Error>)
    requires i < |s|
    ensures r == NextToken(s, i)
  {
    var num := Undefined;
    var nextTokenType: Option<TokenType> := None;
    var next := i + 1;
    var ch := s[i];
    if ch != '-' || (i > 0 && ch == '-' && (IsDigit(s[i - 1]) || s[i - 1] == ')')) {
      // first try to match a name
      var endIndex := i;
      while endIndex < |s| && IsLower(s[endIndex])
        invariant i <= endIndex <= |s|
        invariant LetterEnd(s, endIndex) == LetterEnd(s, i)
        decreases |s| - endIndex
      {
        endIndex := endIndex + 1;
      }
      if endIndex != i {
        WordStep(s, i);
        nextTokenType := TypeMap(s[i..endIndex]);
        if nextTokenType.None? {
          return Failure(UnknownFunction(s[i..endIndex]));
        }
        num := ConstValue(nextTokenType.value);
        next := endIndex;
      } else {
        nextTokenType := TypeMap([s[i]]);
        if nextTokenType.Some? {
          SymbolStep(s, i);
        }
      }
    }
    if nextTokenType.None? {
      NumberStep(s, i);
      var negateNum := false;
      var nStart := i;
      if s[i] == '-' {
        negateNum := true;
        nStart := nStart + 1;
      }
      var nEnd := nStart;
      var decimalEncountered := false;
      while nEnd < |s| && IsNumberChar(s[nEnd])
        invariant nStart <= nEnd <= |s|
        invariant ScanNumber(s, nStart, false) == ScanNumber(s, nEnd, decimalEncountered)
        decreases |s| - nEnd
      {
        if s[nEnd] == '.' {
          if decimalEncountered {
            return Failure(TooManyDecimals(nStart));
          } else {
            decimalEncountered := true;
          }
        }
        nEnd := nEnd + 1;
      }
      if nStart == nEnd {
        return Failure(UnknownToken(nStart));
      }
      num := Literal(s[nStart..nEnd]);
      nextTokenType := Some(Number);
      next := nEnd;
      if negateNum {
        num := Negated(num);
      }
    }
    return Success((NewToken(nextTokenType.value, num), next));
  }

  /**
   * `stringToInfix`: rewrite the equation, then scan it left to right,
   * reading a name, a symbol or a number at each position.
   */
  method StringToInfix(equation: string) returns (r: Result<seq<Token>, Error>)
    ensures r == Lex(Rewrite(equation), 0)
  {
    var s := Rewrite(equation);
    var infix: seq<Token> := [];
    var i: nat := 0;
    PrependNothing(Lex(s, 0));
    while i < |s|
      invariant i <= |s|
      invariant Lex(s, 0) == Prepend(infix, Lex(s, i))
      decreases |s| - i
    {
      var step := ReadToken(s, i);
      LexUnfold(s, i);
      if step.Failure? {
        return Failure(step.error);
      }
      var (tok, next) := step.value;
      PrependTwice(infix, [tok], Lex(s, next));
      infix := infix + [tok];
      i := next;
    }
    assert infix + [] == infix;
    return Success(infix);
  }
}
