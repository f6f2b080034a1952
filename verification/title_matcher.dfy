/**
 The title matcher of the notes controller: the helpers `esc` and
 `makeSpaceInsensitiveRegex`.

 A raw title is compacted (all whitespace removed), each remaining character
 is escaped and followed by `\s*`, and the whole is wrapped as
 `^\s*c1\s*c2\s*...cn\s*$` with the case-insensitive flag. Instead of calling
 a regular-expression engine, the pattern text is read back by `Compile`
 into the list of literal characters it requires, and `Test` matches a title
 against that list with the regex's meaning: optional whitespace, then each
 literal followed by optional whitespace, then the end of the input.
 */
module TitleMatcher {
  import opened Wrappers

  /* ------------------------------ Characters ------------------------------ */

  /** JavaScript's `\s` class, character by character. */
  predicate IsWhitespace(c: char) {
    c == ' ' || c == '\t' || c == '\n' || c == '\r' || c == '\U{000B}' || c == '\U{000C}'
    || c == '\U{00A0}' || c == '\U{1680}' || ('\U{2000}' <= c <= '\U{200A}')
    || c == '\U{2028}' || c == '\U{2029}' || c == '\U{202F}' || c == '\U{205F}'
    || c == '\U{3000}' || c == '\U{FEFF}'
  }

  /** The characters `esc` puts a backslash in front of: `. * + ? ^ $ { } ( ) | [ ] \`. */
  predicate IsMeta(c: char) {
    c in ".*+?^${}()|[]\\"
  }

  /** ASCII case folding, standing in for the `i` flag's canonicalisation. */
  function Lower(c: char): char {
    if 'A' <= c <= 'Z' then (c as int + 32) as char else c
  }

  function FoldCase(s: string): string {
    seq(|s|, i requires 0 <= i < |s| => Lower(s[i]))
  }

  predicate NoWhitespace(s: string) {
    forall i :: 0 <= i < |s| ==> !IsWhitespace(s[i])
  }

  predicate AllWhitespace(s: string) {
    forall i :: 0 <= i < |s| ==> IsWhitespace(s[i])
  }

  /* ------------------------------- esc ------------------------------------ */

  function EscChar(c: char): string {
    if IsMeta(c) then ['\\', c] else [c]
  }

  /** `esc`: a backslash before every metacharacter, every other character unchanged. */
  function Esc(s: string): (r: string)
    ensures |r| >= |s|
  {
    if s == [] then [] else EscChar(s[0]) + Esc(s[1..])
  }

  /** Deletes the backslashes `Esc` inserts: a backslash drops and the character after it stays. */
  function Unescape(e: string): string {
    if |e| == 0 then []
    else if e[0] == '\\' && |e| >= 2 then [e[1]] + Unescape(e[2..])
    else [e[0]] + Unescape(e[1..])
  }

  /** Deleting the inserted backslashes gives the input back. */
  lemma {:induction false} UnescapeEsc(s: string)
    ensures Unescape(Esc(s)) == s
  {
    if s != [] {
      UnescapeEsc(s[1..]);
      var e := Esc(s);
      assert e == EscChar(s[0]) + Esc(s[1..]);
      if IsMeta(s[0]) {
        assert e[0] == '\\' && e[1] == s[0] && e[2..] == Esc(s[1..]);
      } else {
        assert s[0] != '\\';
        assert e[0] == s[0] && e[1..] == Esc(s[1..]);
      }
    }
  }

  /** `esc` changes nothing in a string without metacharacters. */
  lemma {:induction false} EscPlain(s: string)
    requires forall i :: 0 <= i < |s| ==> !IsMeta(s[i])
    ensures Esc(s) == s
  {
    if s != [] {
      EscPlain(s[1..]);
      assert s == [s[0]] + s[1..];
    }
  }

  /** `esc` works character by character: it distributes over concatenation. */
  lemma {:induction false} EscAppend(a: string, b: string)
    ensures Esc(a + b) == Esc(a) + Esc(b)
  {
    if a != [] {
      assert (a + b)[1..] == a[1..] + b;
      EscAppend(a[1..], b);
    } else {
      assert a + b == b;
    }
  }

  /* ------------------------------ compact --------------------------------- */

  /** The compact form: the non-whitespace characters of `s`, in order. */
  function Compact(s: string): (r: string)
    ensures NoWhitespace(r)
    ensures |r| <= |s|
  {
    if s == [] then []
    else if IsWhitespace(s[0]) then Compact(s[1..])
    else [s[0]] + Compact(s[1..])
  }

  /** Compacting works character by character: it distributes over concatenation. */
  lemma {:induction false} CompactAppend(a: string, b: string)
    ensures Compact(a + b) == Compact(a) + Compact(b)
  {
    if a != [] {
      assert (a + b)[0] == a[0];
      assert (a + b)[1..] == a[1..] + b;
      CompactAppend(a[1..], b);
    } else {
      assert a + b == b;
    }
  }

  /** A string without whitespace is its own compact form (so compacting is idempotent). */
  lemma {:induction false} CompactNoWhitespace(s: string)
    requires NoWhitespace(s)
    ensures Compact(s) == s
  {
    if s != [] {
      CompactNoWhitespace(s[1..]);
      assert s == [s[0]] + s[1..];
    }
  }

  /** Whitespace alone compacts to nothing. */
  lemma {:induction false} CompactAllWhitespace(w: string)
    requires AllWhitespace(w)
    ensures Compact(w) == []
  {
    if w != [] {
      CompactAllWhitespace(w[1..]);
    }
  }

  /** Every non-whitespace character occurs in the compact form exactly as often as in the input. */
  lemma {:induction false} CompactCounts(s: string, c: char)
    requires !IsWhitespace(c)
    ensures multiset(Compact(s))[c] == multiset(s)[c]
  {
    if s != [] {
      CompactCounts(s[1..], c);
      assert s == [s[0]] + s[1..];
    }
  }

  /** What a title is compared by: its compact form, case-folded. */
  function TitleKey(s: string): string {
    FoldCase(Compact(s))
  }

  /* -------------------------- makeSpaceInsensitiveRegex ------------------- */

  /** A regular expression: its pattern text and whether the `i` flag is set. */
  datatype Regex = Regex(source: string, ignoreCase: bool)

  const WsStar: string := "\\s*"
  const Start: string := "^\\s*"

  /** For each compact character in turn: the character escaped, then `\s*`. */
  function PatternBody(cs: string): string {
    if cs == [] then [] else Esc([cs[0]]) + WsStar + PatternBody(cs[1..])
  }

  /** The regex the controller builds from a raw title. */
  function MakeSpaceInsensitiveRegex(raw: string): (re: Regex)
    ensures re.ignoreCase
    ensures |re.source| >= |Start| + 1 && re.source[..|Start|] == Start && re.source[|re.source| - 1] == '$'
  {
    Regex(Start + PatternBody(Compact(raw)) + "$", true)
  }

  /**
   Reads the part of a pattern after `^\s*`: a sequence of literals, each an
   escaped metacharacter or a plain character and each followed by `\s*`,
   ending in `$`. Yields the literals, or None for text of any other shape.
   */
  function ParseBody(s: string): Option<string>
    decreases |s|
  {
    if s == "$" then Some([])
    else if |s| >= 5 && s[0] == '\\' && IsMeta(s[1]) && s[2..5] == WsStar then
      match ParseBody(s[5..])
      case Some(rest) => Some([s[1]] + rest)
      case None => None
    else if |s| >= 4 && !IsMeta(s[0]) && s[1..4] == WsStar then
      match ParseBody(s[4..])
      case Some(rest) => Some([s[0]] + rest)
      case None => None
    else None
  }

  /** The literal characters a pattern of the controller's shape requires, in order. */
  function Compile(source: string): Option<string> {
    if |source| >= |Start| && source[..|Start|] == Start then ParseBody(source[|Start|..]) else None
  }

  /** The pattern body, closed by `$`, reads back as the characters it was built from. */
  lemma {:induction false} ParseBodyOfPattern(cs: string)
    ensures ParseBody(PatternBody(cs) + "$") == Some(cs)
  {
    if cs == [] {
      assert PatternBody(cs) + "$" == "$";
    } else {
      var c := cs[0];
      var rest := PatternBody(cs[1..]) + "$";
      ParseBodyOfPattern(cs[1..]);
      var s := PatternBody(cs) + "$";
      assert s == EscChar(c) + WsStar + rest by {
        assert Esc([c]) == EscChar(c) + Esc([]);
      }
      if IsMeta(c) {
        assert s[0] == '\\' && s[1] == c && s[2..5] == WsStar && s[5..] == rest;
      } else {
        assert s[0] == c && s[1..4] == WsStar && s[4..] == rest;
      }
      assert cs == [c] + cs[1..];
    }
  }

  /** The pattern text the controller builds reads back as exactly the compact raw title. */
  lemma CompileMakeRegex(raw: string)
    ensures Compile(MakeSpaceInsensitiveRegex(raw).source) == Some(Compact(raw))
  {
    var body := PatternBody(Compact(raw)) + "$";
    ParseBodyOfPattern(Compact(raw));
    var src := MakeSpaceInsensitiveRegex(raw).source;
    assert src == Start + body;
    assert src[..|Start|] == Start && src[|Start|..] == body;
  }

  /* ------------------------------- matching ------------------------------- */

  predicate CharMatch(ignoreCase: bool, a: char, b: char) {
    if ignoreCase then Lower(a) == Lower(b) else a == b
  }

  /** `t` matches `\s* l1 \s* l2 \s* ... ln \s* $`: optional whitespace, then the literals. */
  predicate MatchFrom(lits: string, t: string, ignoreCase: bool)
    decreases |t|, 1
  {
    (|t| > 0 && IsWhitespace(t[0]) && MatchFrom(lits, t[1..], ignoreCase))
    || MatchLits(lits, t, ignoreCase)
  }

  /** `t` matches `l1 \s* l2 \s* ... ln \s* $`: the first literal, then optional whitespace. */
  predicate MatchLits(lits: string, t: string, ignoreCase: bool)
    decreases |t|, 0
  {
    if lits == [] then t == []
    else |t| > 0 && CharMatch(ignoreCase, t[0], lits[0]) && MatchFrom(lits[1..], t[1..], ignoreCase)
  }

  /** `regex.test(title)` for a regex of the controller's shape. */
  predicate Test(re: Regex, title: string)
    requires Compile(re.source).Some?
  {
    MatchFrom(Compile(re.source).value, title, re.ignoreCase)
  }

  /**
   Against literals without whitespace, the case-insensitive matcher accepts
   exactly the strings whose compact form equals the literals up to case.
   */
  lemma {:induction false} MatchFromIff(lits: string, t: string)
    requires NoWhitespace(lits)
    ensures MatchFrom(lits, t, true) <==> FoldCase(Compact(t)) == FoldCase(lits)
    decreases |t|
  {
    if t == [] {
      assert MatchFrom(lits, t, true) == (lits == []);
      assert lits != [] ==> |FoldCase(lits)| != 0;
    } else if IsWhitespace(t[0]) {
      MatchFromIff(lits, t[1..]);
      assert Compact(t) == Compact(t[1..]);
      if lits != [] {
        assert !IsWhitespace(lits[0]);
        assert Lower(t[0]) == t[0];
        assert !CharMatch(true, t[0], lits[0]);
      }
      assert !MatchLits(lits, t, true);
    } else {
      assert Compact(t) == [t[0]] + Compact(t[1..]);
      assert MatchFrom(lits, t, true) == MatchLits(lits, t, true);
      if lits == [] {
        assert |FoldCase(Compact(t))| != 0;
      } else {
        MatchFromIff(lits[1..], t[1..]);
        var ft, fl := FoldCase(Compact(t)), FoldCase(lits);
        assert ft == [Lower(t[0])] + FoldCase(Compact(t[1..]));
        assert fl == [Lower(lits[0])] + FoldCase(lits[1..]);
        assert ft == fl <==> ft[0] == fl[0] && ft[1..] == fl[1..];
        assert MatchLits(lits, t, true) <==> Lower(t[0]) == Lower(lits[0]) && MatchFrom(lits[1..], t[1..], true);
      }
    }
  }

  /**
   The central property: the regex built from `raw` matches `title` exactly
   when the two have the same non-whitespace characters in the same order,
   ignoring case.
   */
  lemma TitleMatches(raw: string, title: string)
    ensures Compile(MakeSpaceInsensitiveRegex(raw).source).Some?
    ensures Test(MakeSpaceInsensitiveRegex(raw), title) <==> TitleKey(title) == TitleKey(raw)
  {
    CompileMakeRegex(raw);
    MatchFromIff(Compact(raw), title);
  }

  /** Raw titles with the same key are interchangeable as inputs. */
  lemma SameKeySameMatches(raw1: string, raw2: string, title: string)
    requires TitleKey(raw1) == TitleKey(raw2)
    ensures Compile(MakeSpaceInsensitiveRegex(raw1).source).Some?
    ensures Compile(MakeSpaceInsensitiveRegex(raw2).source).Some?
    ensures Test(MakeSpaceInsensitiveRegex(raw1), title) <==> Test(MakeSpaceInsensitiveRegex(raw2), title)
  {
    TitleMatches(raw1, title);
    TitleMatches(raw2, title);
  }

  /** A raw title that is all whitespace matches exactly the titles that are all whitespace. */
  lemma BlankRawMatchesBlankTitles(raw: string, title: string)
    requires Compact(raw) == []
    ensures Compile(MakeSpaceInsensitiveRegex(raw).source).Some?
    ensures Test(MakeSpaceInsensitiveRegex(raw), title) <==> Compact(title) == []
  {
    TitleMatches(raw, title);
    assert |TitleKey(title)| == |Compact(title)|;
  }

  /** Matching is symmetric: `a` finds `b` exactly when `b` finds `a`. */
  lemma MatchSymmetric(a: string, b: string)
    ensures Compile(MakeSpaceInsensitiveRegex(a).source).Some?
    ensures Compile(MakeSpaceInsensitiveRegex(b).source).Some?
    ensures Test(MakeSpaceInsensitiveRegex(a), b) <==> Test(MakeSpaceInsensitiveRegex(b), a)
  {
    TitleMatches(a, b);
    TitleMatches(b, a);
  }

  /** Inserting a run of whitespace anywhere in a title does not change whether it matches. */
  lemma WhitespaceInsensitive(raw: string, a: string, w: string, b: string)
    requires AllWhitespace(w)
    ensures Compile(MakeSpaceInsensitiveRegex(raw).source).Some?
    ensures Test(MakeSpaceInsensitiveRegex(raw), a + w + b) <==> Test(MakeSpaceInsensitiveRegex(raw), a + b)
  {
    TitleMatches(raw, a + w + b);
    TitleMatches(raw, a + b);
    CompactAppend(a + w, b);
    CompactAppend(a, w);
    CompactAppend(a, b);
    CompactAllWhitespace(w);
    assert Compact(a + w + b) == Compact(a + b);
  }

  /** Changing the case of a title's letters does not change whether it matches. */
  lemma CaseInsensitive(raw: string, title: string)
    ensures Compile(MakeSpaceInsensitiveRegex(raw).source).Some?
    ensures Test(MakeSpaceInsensitiveRegex(raw), FoldCase(title)) <==> Test(MakeSpaceInsensitiveRegex(raw), title)
  {
    TitleMatches(raw, title);
    TitleMatches(raw, FoldCase(title));
    FoldCompact(title);
    assert FoldCase(FoldCase(Compact(title))) == FoldCase(Compact(title));
  }

  /** Folding case and compacting commute. */
  lemma {:induction false} FoldCompact(s: string)
    ensures Compact(FoldCase(s)) == FoldCase(Compact(s))
  {
    if s != [] {
      FoldCompact(s[1..]);
      assert FoldCase(s)[1..] == FoldCase(s[1..]);
      assert FoldCase(s)[0] == Lower(s[0]);
      assert IsWhitespace(Lower(s[0])) == IsWhitespace(s[0]);
      if !IsWhitespace(s[0]) {
        assert FoldCase([s[0]] + Compact(s[1..])) == [Lower(s[0])] + FoldCase(Compact(s[1..]));
      }
    }
  }

  /**
   The match is anchored at both ends: a non-whitespace character added
   before, between or after the characters of a matching title makes it fail.
   */
  lemma RejectsExtraCharacter(raw: string, a: string, c: char, b: string)
    requires !IsWhitespace(c)
    requires TitleKey(a + b) == TitleKey(raw)
    ensures Compile(MakeSpaceInsensitiveRegex(raw).source).Some?
    ensures !Test(MakeSpaceInsensitiveRegex(raw), a + [c] + b)
  {
    TitleMatches(raw, a + [c] + b);
    CompactAppend(a + [c], b);
    CompactAppend(a, [c]);
    CompactAppend(a, b);
    assert Compact([c]) == [c];
    assert |TitleKey(a + [c] + b)| == |TitleKey(a + b)| + 1;
  }
}
