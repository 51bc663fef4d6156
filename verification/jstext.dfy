/** The JavaScript string operations the rewriting code relies on: `trim`,
    `startsWith`, `includes`, `split` and `join` on one character, and the
    regular-expression replacements it performs, each written out for the one
    pattern shape that occurs in the code (a literal alternation between two
    `\b` word boundaries, matched ASCII-case-insensitively). */
module JsText {
  import opened Wrappers

  /** ECMAScript WhiteSpace and LineTerminator code points: what `trim` removes. */
  predicate IsSpace(c: char) {
    || c == '\t' || c == '\n' || c == '\U{B}' || c == '\U{C}' || c == '\r' || c == ' '
    || c == '\U{A0}' || c == '\U{1680}' || ('\U{2000}' <= c <= '\U{200A}')
    || c == '\U{2028}' || c == '\U{2029}' || c == '\U{202F}' || c == '\U{205F}'
    || c == '\U{3000}' || c == '\U{FEFF}'
  }

  /** Number of whitespace characters `s` starts with. */
  function LeadingSpaces(s: string): (n: nat)
    ensures n <= |s|
    ensures forall k :: 0 <= k < n ==> IsSpace(s[k])
    ensures n < |s| ==> !IsSpace(s[n])
  {
    if s == [] || !IsSpace(s[0]) then 0 else 1 + LeadingSpaces(s[1..])
  }

  /** Number of whitespace characters `s` ends with. */
  function TrailingSpaces(s: string): (n: nat)
    ensures n <= |s|
    ensures forall k :: |s| - n <= k < |s| ==> IsSpace(s[k])
    ensures n < |s| ==> !IsSpace(s[|s| - n - 1])
  {
    if s == [] || !IsSpace(s[|s| - 1]) then 0 else 1 + TrailingSpaces(s[..|s| - 1])
  }

  /** `s.trim()`: the longest infix of `s` that neither starts nor ends with
      whitespace, obtained by dropping whitespace at both ends. */
  function Trim(s: string): (r: string)
    ensures LeadingSpaces(s) + |r| <= |s|
    ensures r == s[LeadingSpaces(s)..LeadingSpaces(s) + |r|]
    ensures forall k :: LeadingSpaces(s) + |r| <= k < |s| ==> IsSpace(s[k])
    ensures r != [] ==> !IsSpace(r[0]) && !IsSpace(r[|r| - 1])
    ensures r == [] <==> forall k :: 0 <= k < |s| ==> IsSpace(s[k])
  {
    var rest := s[LeadingSpaces(s)..];
    rest[..|rest| - TrailingSpaces(rest)]
  }

  /** The whitespace `trim` removes at the front of `s`. */
  function Leading(s: string): string {
    s[..LeadingSpaces(s)]
  }

  /** The whitespace `trim` removes at the back of `s`. */
  function Trailing(s: string): string {
    s[LeadingSpaces(s) + |Trim(s)|..]
  }

  lemma TrimDecomposes(s: string)
    ensures s == Leading(s) + Trim(s) + Trailing(s)
  {
  }

  /** Trimming an already trimmed string changes nothing. */
  lemma {:induction false} TrimIdempotent(s: string)
    ensures Trim(Trim(s)) == Trim(s)
  {
    var r := Trim(s);
    if r != [] {
      assert LeadingSpaces(r) == 0;
      assert TrailingSpaces(r) == 0;
    }
  }

  /** `s.startsWith(p)`. */
  predicate StartsWith(s: string, p: string) {
    |p| <= |s| && s[..|p|] == p
  }

  /** `sub` occurs in `s` starting at index `i`. */
  predicate OccursAt(s: string, sub: string, i: nat) {
    i + |sub| <= |s| && s[i..i + |sub|] == sub
  }

  /** `s.includes(sub)`. */
  predicate Contains(s: string, sub: string) {
    exists i: nat :: i <= |s| && OccursAt(s, sub, i)
  }

  /** `s.indexOf(c)` for a character known to occur. */
  function IndexOf(s: string, c: char): (i: nat)
    requires c in s
    ensures i < |s| && s[i] == c && c !in s[..i]
  {
    if s[0] == c then 0 else 1 + IndexOf(s[1..], c)
  }

  /** `s.split(sep)` for a one-character separator. */
  function Split(s: string, sep: char): (parts: seq<string>)
    ensures |parts| >= 1
    ensures forall i :: 0 <= i < |parts| ==> sep !in parts[i]
    ensures |parts| == 1 <==> sep !in s
  {
    if s == [] then [""]
    else
      var rest := Split(s[1..], sep);
      if s[0] == sep then [""] + rest
      else [[s[0]] + rest[0]] + rest[1..]
  }

  /** `parts.join(sep)` for a one-character separator. */
  function Join(parts: seq<string>, sep: char): string
    requires |parts| >= 1
  {
    if |parts| == 1 then parts[0] else parts[0] + [sep] + Join(parts[1..], sep)
  }

  /** Joining what was split gives back the original string. */
  lemma {:induction false} JoinSplit(s: string, sep: char)
    ensures Join(Split(s, sep), sep) == s
  {
    if s != [] {
      var rest := Split(s[1..], sep);
      JoinSplit(s[1..], sep);
      assert s == [s[0]] + s[1..];
      if s[0] == sep {
        assert ([""] + rest)[1..] == rest;
        assert Join(Split(s, sep), sep) == "" + [sep] + Join(rest, sep);
      } else {
        var parts := [[s[0]] + rest[0]] + rest[1..];
        assert Split(s, sep) == parts;
        if |rest| > 1 {
          assert parts[1..] == rest[1..];
          assert Join(rest, sep) == rest[0] + [sep] + Join(rest[1..], sep);
          assert Join(parts, sep) == [s[0]] + rest[0] + [sep] + Join(rest[1..], sep);
        }
      }
    }
  }

  /** Splitting a string free of the separator gives that string alone. */
  lemma {:induction false} SplitNoSep(s: string, sep: char)
    requires sep !in s
    ensures Split(s, sep) == [s]
  {
    if s != [] {
      SplitNoSep(s[1..], sep);
      assert [s[0]] + s[1..] == s;
    }
  }

  /** A separator-free piece followed by the separator splits off as the first part. */
  lemma {:induction false} SplitAfterPiece(a: string, sep: char, b: string)
    requires sep !in a
    ensures Split(a + [sep] + b, sep) == [a] + Split(b, sep)
  {
    if a == [] {
      assert a + [sep] + b == [sep] + b;
      assert ([sep] + b)[1..] == b;
    } else {
      assert (a + [sep] + b)[1..] == a[1..] + [sep] + b;
      SplitAfterPiece(a[1..], sep, b);
      assert [a[0]] + a[1..] == a;
    }
  }

  /** Splitting what was joined gives back the parts, when no part holds the separator. */
  lemma {:induction false} SplitJoin(parts: seq<string>, sep: char)
    requires |parts| >= 1
    requires forall i :: 0 <= i < |parts| ==> sep !in parts[i]
    ensures Split(Join(parts, sep), sep) == parts
  {
    if |parts| == 1 {
      SplitNoSep(parts[0], sep);
    } else {
      SplitJoin(parts[1..], sep);
      SplitAfterPiece(parts[0], sep, Join(parts[1..], sep));
      assert [parts[0]] + parts[1..] == parts;
    }
  }

  /** With at least one separator, the first part is the text before the first
      separator and the remaining parts, rejoined, are the text after it. */
  lemma SplitAtFirst(s: string, sep: char)
    requires sep in s
    ensures var i := IndexOf(s, sep);
      var parts := Split(s, sep);
      && parts[0] == s[..i]
      && Join(parts[1..], sep) == s[i + 1..]
  {
    var i := IndexOf(s, sep);
    assert s == s[..i] + [sep] + s[i + 1..];
    SplitAfterPiece(s[..i], sep, s[i + 1..]);
    JoinSplit(s[i + 1..], sep);
  }

  /** ASCII lower-casing. */
  function LowerAscii(c: char): char {
    if 'A' <= c <= 'Z' then (c as int + 32) as char else c
  }

  /** Equality under the canonicalisation of a regular expression with the `i`
      flag and without `u`: no non-ASCII character matches an ASCII one, so
      lower-casing ASCII letters is exact for ASCII patterns. */
  predicate EqualsIgnoreCase(a: string, b: string) {
    |a| == |b| && forall i :: 0 <= i < |a| ==> LowerAscii(a[i]) == LowerAscii(b[i])
  }

  /** The `\w` class: ASCII letters, digits and underscore. */
  predicate IsWordChar(c: char) {
    ('a' <= c <= 'z') || ('A' <= c <= 'Z') || ('0' <= c <= '9') || c == '_'
  }

  predicate WordCharAt(s: string, k: int) {
    0 <= k < |s| && IsWordChar(s[k])
  }

  /** `\b` holds between positions k - 1 and k of `s`. */
  predicate Boundary(s: string, k: int) {
    WordCharAt(s, k - 1) != WordCharAt(s, k)
  }

  /** `\bw\b` with the `i` flag matches at index `i` of `s`. */
  predicate WordMatchAt(s: string, i: nat, w: string) {
    && i + |w| <= |s|
    && Boundary(s, i)
    && EqualsIgnoreCase(s[i..i + |w|], w)
    && Boundary(s, i + |w|)
  }

  /** The alternative of `\b(a|b|...)\b` that matches at index `i`, trying the
      alternatives in order as the regular-expression engine does. */
  function MatchAt(s: string, i: nat, alts: seq<string>): (r: Option<string>)
    ensures r.Some? ==> r.value in alts && WordMatchAt(s, i, r.value)
    ensures r.None? ==> forall w :: w in alts ==> !WordMatchAt(s, i, w)
  {
    if alts == [] then None
    else if WordMatchAt(s, i, alts[0]) then Some(alts[0])
    else MatchAt(s, i, alts[1..])
  }

  predicate NonEmptyWords(alts: seq<string>) {
    forall w :: w in alts ==> w != []
  }

  /** `s.replace(/\b(alts)\b/gi, ...)` scanning from index `i`: a match is
      replaced by `repl` of the matched text and the scan resumes after it;
      elsewhere one character is copied and the scan moves one place on. */
  function ReplaceWordsFrom(s: string, i: nat, alts: seq<string>, repl: string -> string): (r: string)
    requires i <= |s|
    requires NonEmptyWords(alts)
    ensures (forall m :: repl(m) == m) ==> r == s[i..]
    decreases |s| - i
  {
    if i == |s| then []
    else match MatchAt(s, i, alts)
      case Some(w) => repl(s[i..i + |w|]) + ReplaceWordsFrom(s, i + |w|, alts, repl)
      case None => [s[i]] + ReplaceWordsFrom(s, i + 1, alts, repl)
  }

  /** `s.replace(/\b(alts)\b/gi, ...)` over the whole string: text without a
      match is left as it is, and replacements never shorter than the words
      they replace never shorten it. */
  function ReplaceWords(s: string, alts: seq<string>, repl: string -> string): (r: string)
    requires NonEmptyWords(alts)
    ensures (forall k :: 0 <= k < |s| ==> MatchAt(s, k, alts).None?) ==> r == s
    ensures (forall k, m :: 0 <= k < |alts| && |m| == |alts[k]| ==> |repl(m)| >= |m|) ==> |r| >= |s|
  {
    assert (forall k :: 0 <= k < |s| ==> MatchAt(s, k, alts).None?) ==> ReplaceWordsFrom(s, 0, alts, repl) == s by {
      if forall k :: 0 <= k < |s| ==> MatchAt(s, k, alts).None? {
        ReplaceWordsFromNoMatch(s, 0, alts, repl);
        assert s[0..] == s;
      }
    }
    assert (forall k, m :: 0 <= k < |alts| && |m| == |alts[k]| ==> |repl(m)| >= |m|) ==>
      |ReplaceWordsFrom(s, 0, alts, repl)| >= |s| by {
      if forall k, m :: 0 <= k < |alts| && |m| == |alts[k]| ==> |repl(m)| >= |m| {
        ReplaceWordsFromGrows(s, 0, alts, repl);
      }
    }
    ReplaceWordsFrom(s, 0, alts, repl)
  }

  /** No match from index `i` on: the rest of the string is copied unchanged. */
  lemma {:induction false} ReplaceWordsFromNoMatch(s: string, i: nat, alts: seq<string>, repl: string -> string)
    requires i <= |s| && NonEmptyWords(alts)
    requires forall k :: i <= k < |s| ==> MatchAt(s, k, alts).None?
    ensures ReplaceWordsFrom(s, i, alts, repl) == s[i..]
    decreases |s| - i
  {
    if i < |s| {
      ReplaceWordsFromNoMatch(s, i + 1, alts, repl);
    }
  }

  /** A replacement never shorter than the word it replaces never shortens the string. */
  lemma {:induction false} ReplaceWordsFromGrows(s: string, i: nat, alts: seq<string>, repl: string -> string)
    requires i <= |s| && NonEmptyWords(alts)
    requires forall k, m :: 0 <= k < |alts| && |m| == |alts[k]| ==> |repl(m)| >= |m|
    ensures |ReplaceWordsFrom(s, i, alts, repl)| >= |s| - i
    decreases |s| - i
  {
    if i < |s| {
      var found := MatchAt(s, i, alts);
      var whole := ReplaceWordsFrom(s, i, alts, repl);
      if found.Some? {
        var w := found.value;
        var m := s[i..i + |w|];
        var rest := ReplaceWordsFrom(s, i + |w|, alts, repl);
        ReplaceWordsFromGrows(s, i + |w|, alts, repl);
        var k := PositionOf(alts, w);
        assert |m| == |alts[k]| == |w|;
        assert |repl(m)| >= |w|;
        assert whole == repl(m) + rest;
        assert |whole| == |repl(m)| + |rest|;
      } else {
        var rest := ReplaceWordsFrom(s, i + 1, alts, repl);
        ReplaceWordsFromGrows(s, i + 1, alts, repl);
        assert whole == [s[i]] + rest;
      }
    }
  }


  /** A position at which a member of a sequence occurs. */
  lemma PositionOf(alts: seq<string>, w: string) returns (k: nat)
    requires w in alts
    ensures k < |alts| && alts[k] == w
  {
    k :| k < |alts| && alts[k] == w;
  }



  /** First index at which `pat` occurs in `s` at or after `i`. */
  function IndexOfFrom(s: string, pat: string, i: nat): (r: Option<nat>)
    requires i <= |s|
    ensures r.Some? ==> i <= r.value && OccursAt(s, pat, r.value)
    ensures r.Some? ==> forall k :: i <= k < r.value ==> !OccursAt(s, pat, k)
    ensures r.None? ==> forall k :: i <= k <= |s| ==> !OccursAt(s, pat, k)
    decreases |s| - i
  {
    if OccursAt(s, pat, i) then Some(i)
    else if i == |s| then None
    else IndexOfFrom(s, pat, i + 1)
  }

  /** GetSubstitution of ECMAScript for a pattern without capture groups:
      `$$` gives `$`, `$&` the matched text, `` $` `` the text before the match,
      `$'` the text after it; every other character stands for itself. */
  function ExpandTemplate(t: string, matched: string, before: string, after: string): (r: string)
    ensures '$' !in t ==> r == t
  {
    if t == [] then []
    else if t[0] == '$' && |t| >= 2 && t[1] == '$' then "$" + ExpandTemplate(t[2..], matched, before, after)
    else if t[0] == '$' && |t| >= 2 && t[1] == '&' then matched + ExpandTemplate(t[2..], matched, before, after)
    else if t[0] == '$' && |t| >= 2 && t[1] == '`' then before + ExpandTemplate(t[2..], matched, before, after)
    else if t[0] == '$' && |t| >= 2 && t[1] == '\'' then after + ExpandTemplate(t[2..], matched, before, after)
    else [t[0]] + ExpandTemplate(t[1..], matched, before, after)
  }

  /** A `$`-free head of a replacement string is copied and expansion goes on after it. */
  lemma {:induction false} ExpandTemplateLiteralPrefix(head: string, rest: string, matched: string, before: string, after: string)
    requires '$' !in head
    ensures ExpandTemplate(head + rest, matched, before, after) == head + ExpandTemplate(rest, matched, before, after)
  {
    if head != [] {
      assert '$' !in head[1..];
      ExpandTemplateLiteralPrefix(head[1..], rest, matched, before, after);
      var t := head + rest;
      assert t[0] == head[0] && head[0] != '$';
      assert t[1..] == head[1..] + rest;
      assert head == [head[0]] + head[1..];
    } else {
      assert head + rest == rest;
    }
  }

  /** `s.replace(pat, template)` with a string pattern: only the first
      occurrence is replaced, and `template` goes through GetSubstitution. */
  function ReplaceFirst(s: string, pat: string, template: string): (r: string)
    ensures IndexOfFrom(s, pat, 0).None? ==> r == s
    ensures IndexOfFrom(s, pat, 0).Some? && '$' !in template ==>
      var p := IndexOfFrom(s, pat, 0).value;
      r == s[..p] + template + s[p + |pat|..]
  {
    match IndexOfFrom(s, pat, 0)
    case None => s
    case Some(p) => s[..p] + ExpandTemplate(template, pat, s[..p], s[p + |pat|..]) + s[p + |pat|..]
  }
}
