/** The front-end parser (src/parser.rs): nom combinators over a string of characters.

    A nom parser returns the unconsumed rest of its input. Here every parser takes the whole input
    s and the position i where it starts, and on success returns the position where the rest
    begins, so nom's rest is s[pos..]. nom's error kinds and positions are collapsed into the single
    Fail outcome. */
module Parser {
  import opened Ast

  /** The outcome of a parser: the position where the unconsumed rest begins and the value read,
      or failure. A failing step ends the enclosing parser with Fail, as nom's `?` does. */
  datatype Parse<+T> = Parsed(pos: nat, value: T) | Fail

  // Character classes. nom's alpha1 and alphanumeric1 accept ASCII letters and digits only, and
  // space0/space1 accept the space and the horizontal tab.

  predicate IsLetter(c: char) {
    'a' <= c <= 'z' || 'A' <= c <= 'Z'
  }

  predicate IsDigit(c: char) {
    '0' <= c <= '9'
  }

  predicate IsIdentStart(c: char) {
    IsLetter(c) || c == '_'
  }

  predicate IsIdentChar(c: char) {
    IsLetter(c) || IsDigit(c) || c == '_'
  }

  predicate IsSpace(c: char) {
    c == ' ' || c == '\t'
  }

  /** A name the identifier parser accepts: [A-Za-z_][A-Za-z0-9_]*. */
  predicate IsIdentifier(x: string) {
    |x| >= 1 && IsIdentStart(x[0]) && IdentChars(x, 1, |x|)
  }

  /** Every character of s[i..j] is a letter, a digit or an underscore. */
  predicate IdentChars(s: string, i: nat, j: nat)
    decreases j - i
  {
    i >= j || (i < |s| && IsIdentChar(s[i]) && IdentChars(s, i + 1, j))
  }

  /** Every character of s[i..j] is a space or a tab. */
  predicate Spaces(s: string, i: nat, j: nat)
    decreases j - i
  {
    i >= j || (i < |s| && IsSpace(s[i]) && Spaces(s, i + 1, j))
  }

  predicate SpaceAt(s: string, k: nat) {
    k < |s| && IsSpace(s[k])
  }

  predicate IdentCharAt(s: string, k: nat) {
    k < |s| && IsIdentChar(s[k])
  }

  /** "\n" or "\r\n" starts at k; a lone carriage return is not a line ending. */
  predicate LineEndingAt(s: string, k: nat) {
    (k < |s| && s[k] == '\n') || (k + 1 < |s| && s[k] == '\r' && s[k + 1] == '\n')
  }

  /** Whether the whitespace parser would consume anything at k. */
  predicate BlankAt(s: string, k: nat) {
    SpaceAt(s, k) || LineEndingAt(s, k)
  }

  /** The text t appears in s at position i. */
  predicate Occurs(s: string, i: nat, t: string) {
    i + |t| <= |s| && OccursFrom(s, i, t, 0)
  }

  /** The characters of t from the k-th on appear in s from i + k on. */
  predicate OccursFrom(s: string, i: nat, t: string, k: nat)
    requires i + |t| <= |s|
    decreases |t| - k
  {
    k >= |t| || (s[i + k] == t[k] && OccursFrom(s, i, t, k + 1))
  }

  /** s[i..j] is a maximal run of spaces and tabs. */
  predicate SpaceSpan(s: string, i: nat, j: nat) {
    i <= j <= |s| && Spaces(s, i, j) && !SpaceAt(s, j)
  }

  /** s[i..j] is an identifier that cannot be extended to the right. */
  predicate IdentSpan(s: string, i: nat, j: nat) {
    i < j <= |s| && IsIdentStart(s[i]) && IdentChars(s, i + 1, j) && !IdentCharAt(s, j)
  }

  /** s[i..j] is made of spaces, tabs and line endings. */
  predicate Blanks(s: string, i: nat, j: nat)
    requires i <= j <= |s|
    decreases j - i
  {
    if i == j then true
    else if IsSpace(s[i]) || s[i] == '\n' then Blanks(s, i + 1, j)
    else i + 1 < j && s[i] == '\r' && s[i + 1] == '\n' && Blanks(s, i + 2, j)
  }

  /** s[i..j] is a maximal run of blanks. */
  predicate BlankSpan(s: string, i: nat, j: nat) {
    i <= j <= |s| && Blanks(s, i, j) && !BlankAt(s, j)
  }

  /** The end of the run of spaces and tabs starting at i. */
  function SpaceEnd(s: string, i: nat): (j: nat)
    requires i <= |s|
    ensures SpaceSpan(s, i, j)
    decreases |s| - i
  {
    if i < |s| && IsSpace(s[i]) then SpaceEnd(s, i + 1) else i
  }

  /** The end of the run of identifier characters starting at i. */
  function IdentEnd(s: string, i: nat): (j: nat)
    requires i <= |s|
    ensures i <= j <= |s| && IdentChars(s, i, j) && !IdentCharAt(s, j)
    decreases |s| - i
  {
    if i < |s| && IsIdentChar(s[i]) then IdentEnd(s, i + 1) else i
  }

  /** A maximal run of spaces is exactly what SpaceEnd finds. */
  lemma {:induction false} SpaceSpanIsSpaceEnd(s: string, i: nat, j: nat)
    requires SpaceSpan(s, i, j)
    ensures SpaceEnd(s, i) == j
    decreases j - i
  {
    if i < j {
      SpaceSpanIsSpaceEnd(s, i + 1, j);
    }
  }

  /** A maximal run of identifier characters is exactly what IdentEnd finds. */
  lemma {:induction false} IdentEndOfSpan(s: string, i: nat, j: nat)
    requires i <= j <= |s| && IdentChars(s, i, j) && !IdentCharAt(s, j)
    ensures IdentEnd(s, i) == j
    decreases j - i
  {
    if i < j {
      IdentEndOfSpan(s, i + 1, j);
    }
  }

  /** Every position inside a run of spaces holds a space. */
  lemma {:induction false} SpacesAt(s: string, i: nat, j: nat, k: nat)
    requires Spaces(s, i, j) && i <= k < j
    ensures SpaceAt(s, k)
    decreases j - i
  {
    if i < k {
      SpacesAt(s, i + 1, j, k);
    }
  }

  /** The characters of s from i up to j, as a string of their own. */
  function Text(s: string, i: nat, j: nat): (t: string)
    requires i <= j <= |s|
    ensures |t| == j - i
    decreases j - i
  {
    if i == j then "" else [s[i]] + Text(s, i + 1, j)
  }

  /** The k-th character of Text(s, i, j) is s[i + k]. */
  lemma {:induction false} TextAt(s: string, i: nat, j: nat, k: nat)
    requires i <= j <= |s| && k < j - i
    ensures Text(s, i, j)[k] == s[i + k]
    decreases k
  {
    if k > 0 {
      TextAt(s, i + 1, j, k - 1);
    }
  }

  /** A text written at i is what Text reads back there. */
  lemma TextOfOccurs(s: string, i: nat, x: string)
    requires Occurs(s, i, x)
    ensures Text(s, i, i + |x|) == x
  {
    forall k | 0 <= k < |x|
      ensures Text(s, i, i + |x|)[k] == x[k]
    {
      TextAt(s, i, i + |x|, k);
      OccursAt(s, i, x, k);
    }
  }

  /** Identifier characters of s[i..j] stay identifier characters of Text(s, i, j). */
  lemma {:induction false} IdentCharsText(s: string, i: nat, j: nat, k: nat)
    requires i <= j <= |s| && i + k <= j && IdentChars(s, i + k, j)
    ensures IdentChars(Text(s, i, j), k, j - i)
    decreases j - i - k
  {
    if i + k < j {
      TextAt(s, i, j, k);
      IdentCharsText(s, i, j, k + 1);
    }
  }

  /** Identifier characters of a text carry over to where the text is written. */
  lemma {:induction false} IdentCharsOccur(s: string, i: nat, x: string, k: nat)
    requires Occurs(s, i, x) && k <= |x| && IdentChars(x, k, |x|)
    ensures IdentChars(s, i + k, i + |x|)
    decreases |x| - k
  {
    if k < |x| {
      OccursAt(s, i, x, k);
      IdentCharsOccur(s, i, x, k + 1);
    }
  }

  /** identifier: a letter or underscore, then the longest run of letters, digits and
      underscores. */
  function Identifier(s: string, i: nat): (r: Parse<string>)
    requires i <= |s|
    ensures r.Parsed? <==> i < |s| && IsIdentStart(s[i])
    ensures r.Parsed? ==> IdentSpan(s, i, r.pos) && r.value == Text(s, i, r.pos) && IsIdentifier(r.value)
  {
    if i < |s| && IsIdentStart(s[i]) then
      var j := IdentEnd(s, i + 1);
      IdentSpanIsIdentifier(s, i, j);
      Parsed(j, Text(s, i, j))
    else Fail
  }

  lemma IdentSpanIsIdentifier(s: string, i: nat, j: nat)
    requires IdentSpan(s, i, j)
    ensures IsIdentifier(Text(s, i, j))
  {
    TextAt(s, i, j, 0);
    IdentCharsText(s, i, j, 1);
  }

  /** The identifier parser recognises exactly the maximal identifier at i. */
  lemma IdentifierOfSpan(s: string, i: nat, j: nat)
    requires IdentSpan(s, i, j)
    ensures Identifier(s, i) == Parsed(j, Text(s, i, j))
  {
    IdentEndOfSpan(s, i + 1, j);
  }

  /** An identifier written at i and followed by a character that cannot extend it is read back. */
  lemma IdentifierPrinted(s: string, i: nat, x: string)
    requires Occurs(s, i, x) && IsIdentifier(x) && !IdentCharAt(s, i + |x|)
    ensures IdentSpan(s, i, i + |x|) && Identifier(s, i) == Parsed(i + |x|, x)
  {
    OccursAt(s, i, x, 0);
    IdentCharsOccur(s, i, x, 1);
    IdentifierOfSpan(s, i, i + |x|);
    TextOfOccurs(s, i, x);
  }

  /** space0: the longest run of spaces and tabs, possibly empty. The run is s[i..pos]; every
      caller discards its text, so the result keeps only the position. */
  function Space0(s: string, i: nat): (r: Parse<()>)
    requires i <= |s|
    ensures r.Parsed? && SpaceSpan(s, i, r.pos)
  {
    Parsed(SpaceEnd(s, i), ())
  }

  /** space1: like space0, but at least one space or tab is required. */
  function Space1(s: string, i: nat): (r: Parse<()>)
    requires i <= |s|
    ensures r.Parsed? <==> SpaceAt(s, i)
    ensures r.Parsed? ==> i < r.pos && SpaceSpan(s, i, r.pos)
  {
    var sp := Space0(s, i);
    if sp.pos == i then Fail else sp
  }

  /** tag(t): the literal t at the current position. */
  function Tag(s: string, i: nat, t: string): (r: Parse<string>)
    requires i <= |s|
    ensures r.Parsed? <==> Occurs(s, i, t)
    ensures r.Parsed? ==> r.pos == i + |t| && r.value == t
  {
    if Occurs(s, i, t) then Parsed(i + |t|, t) else Fail
  }

  /** tag(t) succeeds exactly when the input's slice from i of the length of t is t, and then it
      consumes that slice and returns it. */
  lemma TagIsSlice(s: string, i: nat, t: string)
    requires i <= |s|
    ensures Tag(s, i, t).Parsed? <==> i + |t| <= |s| && s[i..i + |t|] == t
    ensures Tag(s, i, t).Parsed? ==> s[i..Tag(s, i, t).pos] == Tag(s, i, t).value
  {
    OccursIsSlice(s, i, t);
  }

  /** line_ending: "\n" or "\r\n". */
  function LineEnding(s: string, i: nat): (r: Parse<string>)
    requires i <= |s|
    ensures r.Parsed? <==> LineEndingAt(s, i)
    ensures r.Parsed? ==> i < r.pos <= |s| && r.pos == i + |r.value| && Blanks(s, i, r.pos)
  {
    if i < |s| && s[i] == '\n' then
      assert Blanks(s, i + 1, i + 1);
      Parsed(i + 1, "\n")
    else if i + 1 < |s| && s[i] == '\r' && s[i + 1] == '\n' then
      assert Blanks(s, i + 2, i + 2);
      Parsed(i + 2, "\r\n")
    else Fail
  }

  /** line_ending reads exactly one of its two texts, and what it returns is what it consumed. */
  lemma LineEndingIsSlice(s: string, i: nat)
    requires i <= |s|
    ensures var r := LineEnding(s, i);
      r.Parsed? ==> r.value in {"\n", "\r\n"} && s[i..r.pos] == r.value
  {
  }

  /** Spaces followed by blanks are blanks. */
  lemma {:induction false} SpacesThenBlanks(s: string, i: nat, j: nat, k: nat)
    requires i <= j <= k <= |s|
    requires Spaces(s, i, j) && Blanks(s, j, k)
    ensures Blanks(s, i, k)
    decreases j - i
  {
    if i < j {
      SpacesThenBlanks(s, i + 1, j, k);
    }
  }

  /** whitespace: many0(alt((space1, line_ending))), which always succeeds and stops at the first
      character that starts neither a space run nor a line ending. Like space0, only the position
      is kept. */
  function Whitespace(s: string, i: nat): (r: Parse<()>)
    requires i <= |s|
    ensures r.Parsed? && BlankSpan(s, i, r.pos)
    decreases |s| - i
  {
    var sp := Space1(s, i);
    if sp.Parsed? then
      var w := Whitespace(s, sp.pos);
      SpacesThenBlanks(s, i, sp.pos, w.pos);
      w
    else
      var le := LineEnding(s, i);
      if le.Parsed? then
        var w := Whitespace(s, le.pos);
        BlanksThenBlanks(s, i, le.pos, w.pos);
        w
      else
        Parsed(i, ())
  }

  /** Blanks followed by blanks are blanks. */
  lemma {:induction false} BlanksThenBlanks(s: string, i: nat, j: nat, k: nat)
    requires i <= j <= k <= |s| && Blanks(s, i, j) && Blanks(s, j, k)
    ensures Blanks(s, i, k)
    decreases j - i
  {
    if i < j {
      if IsSpace(s[i]) || s[i] == '\n' {
        BlanksThenBlanks(s, i + 1, j, k);
      } else {
        BlanksThenBlanks(s, i + 2, j, k);
      }
    }
  }

  /** Skipping leading spaces of a blank run leaves a blank run. */
  lemma {:induction false} BlanksAfterSpaces(s: string, i: nat, e: nat, j: nat)
    requires i <= e <= j <= |s| && Blanks(s, i, j) && Spaces(s, i, e)
    ensures Blanks(s, e, j)
    decreases e - i
  {
    if i < e {
      BlanksAfterSpaces(s, i + 1, e, j);
    }
  }

  /** The whitespace parser consumes exactly a maximal blank run. */
  lemma {:induction false} WhitespaceOfSpan(s: string, i: nat, j: nat)
    requires BlankSpan(s, i, j)
    ensures Whitespace(s, i).pos == j
    decreases j - i
  {
    if i == j {
      assert !SpaceAt(s, i) && !LineEndingAt(s, i);
    } else if IsSpace(s[i]) {
      var e := SpaceEnd(s, i);
      if e > j {
        SpacesAt(s, i, e, j);
      }
      BlanksAfterSpaces(s, i, e, j);
      WhitespaceOfSpan(s, e, j);
    } else if s[i] == '\n' {
      WhitespaceOfSpan(s, i + 1, j);
    } else {
      WhitespaceOfSpan(s, i + 2, j);
    }
  }

  lemma {:induction false} OccursFromAt(s: string, i: nat, t: string, j: nat, k: nat)
    requires i + |t| <= |s| && OccursFrom(s, i, t, j) && j <= k < |t|
    ensures s[i + k] == t[k]
    decreases k - j
  {
    if j < k {
      OccursFromAt(s, i, t, j + 1, k);
    }
  }

  /** The character t[k] of a text written at i. */
  lemma OccursAt(s: string, i: nat, t: string, k: nat)
    requires Occurs(s, i, t) && k < |t|
    ensures s[i + k] == t[k]
  {
    OccursFromAt(s, i, t, 0, k);
  }

  lemma {:induction false} OccursFromAll(s: string, i: nat, t: string, j: nat)
    requires i + |t| <= |s| && j <= |t| && forall k :: j <= k < |t| ==> s[i + k] == t[k]
    ensures OccursFrom(s, i, t, j)
    decreases |t| - j
  {
    if j < |t| {
      OccursFromAll(s, i, t, j + 1);
    }
  }

  /** A text whose every character is found in s from i on occurs at i. */
  lemma OccursOf(s: string, i: nat, t: string)
    requires i + |t| <= |s| && forall k :: 0 <= k < |t| ==> s[i + k] == t[k]
    ensures Occurs(s, i, t)
  {
    OccursFromAll(s, i, t, 0);
  }

  /** A text occurs at i exactly when the slice of s starting at i is that text. */
  lemma OccursIsSlice(s: string, i: nat, t: string)
    ensures Occurs(s, i, t) <==> i + |t| <= |s| && s[i..i + |t|] == t
  {
    if Occurs(s, i, t) {
      forall k | 0 <= k < |t|
        ensures s[i..i + |t|][k] == t[k]
      {
        OccursAt(s, i, t, k);
      }
    } else if i + |t| <= |s| && s[i..i + |t|] == t {
      forall k | 0 <= k < |t|
        ensures s[i + k] == t[k]
      {
        assert s[i..i + |t|][k] == s[i + k];
      }
      OccursOf(s, i, t);
    }
  }

  /** Two adjacent pieces of text occur one after the other. */
  lemma OccursSplit(s: string, i: nat, a: string, b: string)
    requires Occurs(s, i, a + b)
    ensures Occurs(s, i, a) && Occurs(s, i + |a|, b)
  {
    forall k | 0 <= k < |a|
      ensures s[i + k] == a[k]
    {
      OccursAt(s, i, a + b, k);
      assert (a + b)[k] == a[k];
    }
    forall k | 0 <= k < |b|
      ensures s[i + |a| + k] == b[k]
    {
      OccursAt(s, i, a + b, |a| + k);
      assert (a + b)[|a| + k] == b[k];
    }
    OccursOf(s, i, a);
    OccursOf(s, i + |a|, b);
  }

  /** An identifier written at i, the character after it being known, is an identifier span
      that the identifier parser reads back; its first character is no blank. */
  lemma IdentAt(s: string, i: nat, x: string)
    requires Occurs(s, i, x) && IsIdentifier(x) && !IdentCharAt(s, i + |x|)
    ensures IdentSpan(s, i, i + |x|) && Text(s, i, i + |x|) == x
    ensures Identifier(s, i) == Parsed(i + |x|, x)
    ensures !SpaceAt(s, i) && s[i] != '\U{2218}'
  {
    IdentifierPrinted(s, i, x);
    TextOfOccurs(s, i, x);
  }

  /** A single space before a character that is no space is a run of spaces of its own. */
  lemma OneSpace(s: string, p: nat)
    requires p < |s| && s[p] == ' ' && !SpaceAt(s, p + 1)
    ensures SpaceSpan(s, p, p + 1) && SpaceEnd(s, p) == p + 1
  {
    assert Spaces(s, p + 1, p + 1);
    SpaceSpanIsSpaceEnd(s, p, p + 1);
  }

  /** The keywords and the punctuation the statement parsers look for. */
  const ObjectKeyword: string := "object"
  const MorphismKeyword: string := "morphism"
  const AssertKeyword: string := "assert commute:"
  const Colon: string := ":"
  const Arrow: string := "->"
  const Equals: string := "=="

  /** parse_object: "object", at least one space, an identifier, then any trailing blanks. */
  function ParseObject(s: string, i: nat): (r: Parse<Statement>)
    requires i <= |s|
    ensures r.Parsed? ==> Occurs(s, i, ObjectKeyword) && i < r.pos <= |s| && !BlankAt(s, r.pos)
    ensures r.Parsed? ==> r.value.Object? && IsIdentifier(r.value.name)
    ensures Occurs(s, i, ObjectKeyword) && !SpaceAt(s, i + 6) ==> r.Fail?
  {
    var kw := Tag(s, i, ObjectKeyword);
    if kw.Fail? then Fail else
    var sp := Space1(s, kw.pos);
    if sp.Fail? then Fail else
    var name := Identifier(s, sp.pos);
    if name.Fail? then Fail else
    var w := Whitespace(s, name.pos);
    Parsed(w.pos, Object(name.value))
  }

  /** The steps of parse_object, put together. */
  lemma ObjectSteps(s: string, i: nat, a: nat, b: nat, c: nat, x: string)
    requires i + 6 <= |s| && Tag(s, i, ObjectKeyword) == Parsed(i + 6, ObjectKeyword)
    requires Space1(s, i + 6).Parsed? && Space1(s, i + 6).pos == a
    requires a <= |s| && Identifier(s, a) == Parsed(b, x)
    requires b <= |s| && Whitespace(s, b).pos == c
    ensures ParseObject(s, i) == Parsed(c, Object(x))
  {
  }

  /** parse_object reads back "object", a run of spaces, an identifier and a run of blanks, for
      every spacing. */
  lemma ObjectOfSpans(s: string, i: nat, a: nat, b: nat, c: nat)
    requires Occurs(s, i, ObjectKeyword) && i + 6 < a && SpaceSpan(s, i + 6, a)
    requires IdentSpan(s, a, b) && BlankSpan(s, b, c)
    ensures ParseObject(s, i) == Parsed(c, Object(Text(s, a, b)))
  {
    SpaceSpanIsSpaceEnd(s, i + 6, a);
    IdentifierOfSpan(s, a, b);
    WhitespaceOfSpan(s, b, c);
    ObjectSteps(s, i, a, b, c, Text(s, a, b));
  }

  /** parse_morphism: "morphism", at least one space, the name, a colon right after it, then the
      source, "->" and the target with optional spaces around them, then any trailing blanks. */
  function ParseMorphism(s: string, i: nat): (r: Parse<Statement>)
    requires i <= |s|
    ensures r.Parsed? ==> Occurs(s, i, MorphismKeyword) && i < r.pos <= |s| && !BlankAt(s, r.pos)
    ensures r.Parsed? ==>
      r.value.Morphism? && IsIdentifier(r.value.name) && IsIdentifier(r.value.from) && IsIdentifier(r.value.to)
    ensures Occurs(s, i, MorphismKeyword) && !SpaceAt(s, i + 8) ==> r.Fail?
  {
    var kw := Tag(s, i, MorphismKeyword);
    if kw.Fail? then Fail else
    var sp := Space1(s, kw.pos);
    if sp.Fail? then Fail else
    var name := Identifier(s, sp.pos);
    if name.Fail? then Fail else
    var colon := Tag(s, name.pos, Colon);
    if colon.Fail? then Fail else
    MorphismTail(s, colon.pos, name.value)
  }

  /** The rest of parse_morphism after the colon: optional spaces, the source, optional spaces,
      "->", optional spaces, the target, then any trailing blanks. */
  function MorphismTail(s: string, i: nat, name: string): (r: Parse<Statement>)
    requires i <= |s|
    ensures r.Parsed? ==> i < r.pos <= |s| && !BlankAt(s, r.pos)
    ensures r.Parsed? ==>
      r.value.Morphism? && r.value.name == name && IsIdentifier(r.value.from) && IsIdentifier(r.value.to)
  {
    var s1 := Space0(s, i);
    var from := Identifier(s, s1.pos);
    if from.Fail? then Fail else
    var s2 := Space0(s, from.pos);
    var arrow := Tag(s, s2.pos, Arrow);
    if arrow.Fail? then Fail else
    var s3 := Space0(s, arrow.pos);
    var to := Identifier(s, s3.pos);
    if to.Fail? then Fail else
    var w := Whitespace(s, to.pos);
    Parsed(w.pos, Morphism(name, from.value, to.value))
  }

  /** The steps of parse_morphism up to the colon, put together. */
  lemma MorphismSteps(s: string, i: nat, a: nat, b: nat, h: nat, name: string, st: Statement)
    requires i + 8 <= |s| && Tag(s, i, MorphismKeyword) == Parsed(i + 8, MorphismKeyword)
    requires Space1(s, i + 8).Parsed? && Space1(s, i + 8).pos == a
    requires a <= |s| && Identifier(s, a) == Parsed(b, name)
    requires b < |s| && Tag(s, b, Colon) == Parsed(b + 1, Colon)
    requires MorphismTail(s, b + 1, name) == Parsed(h, st)
    ensures ParseMorphism(s, i) == Parsed(h, st)
  {
  }

  /** The steps of parse_morphism after the colon, put together. */
  lemma MorphismTailSteps(s: string, p: nat, c: nat, d: nat, e: nat, f: nat, g: nat, h: nat,
                          name: string, from: string, to: string)
    requires p <= |s| && Space0(s, p).pos == c
    requires c <= |s| && Identifier(s, c) == Parsed(d, from)
    requires d <= |s| && Space0(s, d).pos == e
    requires e + 2 <= |s| && Tag(s, e, Arrow) == Parsed(e + 2, Arrow)
    requires Space0(s, e + 2).pos == f
    requires f <= |s| && Identifier(s, f) == Parsed(g, to)
    requires g <= |s| && Whitespace(s, g).pos == h
    ensures MorphismTail(s, p, name) == Parsed(h, Morphism(name, from, to))
  {
  }

  /** parse_morphism reads a declaration back for every spacing it allows: at least one space after
      the keyword, the colon right after the name, and any spaces after the colon and around the
      arrow. */
  lemma MorphismOfSpans(s: string, i: nat, a: nat, b: nat, c: nat, d: nat, e: nat, f: nat, g: nat, h: nat)
    requires Occurs(s, i, MorphismKeyword) && i + 8 < a && SpaceSpan(s, i + 8, a) && IdentSpan(s, a, b)
    requires Occurs(s, b, Colon) && SpaceSpan(s, b + 1, c) && IdentSpan(s, c, d) && SpaceSpan(s, d, e)
    requires Occurs(s, e, Arrow) && SpaceSpan(s, e + 2, f) && IdentSpan(s, f, g) && BlankSpan(s, g, h)
    ensures ParseMorphism(s, i) == Parsed(h, Morphism(Text(s, a, b), Text(s, c, d), Text(s, f, g)))
  {
    MorphismHeadOfSpans(s, i, a, b);
    MorphismTailOfSpans(s, b + 1, c, d, e, f, g, h, Text(s, a, b));
    MorphismSteps(s, i, a, b, h, Text(s, a, b), Morphism(Text(s, a, b), Text(s, c, d), Text(s, f, g)));
  }

  /** The steps of parse_morphism up to the colon, for every spacing after the keyword. */
  lemma MorphismHeadOfSpans(s: string, i: nat, a: nat, b: nat)
    requires Occurs(s, i, MorphismKeyword) && i + 8 < a && SpaceSpan(s, i + 8, a) && IdentSpan(s, a, b)
    requires Occurs(s, b, Colon)
    ensures Tag(s, i, MorphismKeyword) == Parsed(i + 8, MorphismKeyword)
    ensures Space1(s, i + 8).Parsed? && Space1(s, i + 8).pos == a
    ensures Identifier(s, a) == Parsed(b, Text(s, a, b))
    ensures b < |s| && Tag(s, b, Colon) == Parsed(b + 1, Colon)
  {
    SpaceSpanIsSpaceEnd(s, i + 8, a);
    IdentifierOfSpan(s, a, b);
  }

  /** The part of parse_morphism after the colon reads the source, the arrow and the target back
      for every spacing around them. */
  lemma MorphismTailOfSpans(s: string, p: nat, c: nat, d: nat, e: nat, f: nat, g: nat, h: nat, name: string)
    requires SpaceSpan(s, p, c) && IdentSpan(s, c, d) && SpaceSpan(s, d, e)
    requires Occurs(s, e, Arrow) && SpaceSpan(s, e + 2, f) && IdentSpan(s, f, g) && BlankSpan(s, g, h)
    ensures MorphismTail(s, p, name) == Parsed(h, Morphism(name, Text(s, c, d), Text(s, f, g)))
  {
    SpaceSpanIsSpaceEnd(s, p, c);
    IdentifierOfSpan(s, c, d);
    SpaceSpanIsSpaceEnd(s, d, e);
    SpaceSpanIsSpaceEnd(s, e + 2, f);
    IdentifierOfSpan(s, f, g);
    WhitespaceOfSpan(s, g, h);
    MorphismTailSteps(s, p, c, d, e, f, g, h, name, Text(s, c, d), Text(s, f, g));
  }

  /** A space between a morphism's name and its colon is rejected. */
  lemma MorphismColonAfterName(s: string, i: nat, a: nat, b: nat)
    requires Occurs(s, i, MorphismKeyword) && i + 8 < a && SpaceSpan(s, i + 8, a) && IdentSpan(s, a, b)
    requires !Occurs(s, b, Colon)
    ensures ParseMorphism(s, i).Fail?
  {
    SpaceSpanIsSpaceEnd(s, i + 8, a);
    IdentifierOfSpan(s, a, b);
  }

  /** The composition sign, U+2218 RING OPERATOR. */
  const CompositionSign: string := "\U{2218}"

  /** The separator between the names of a written chain. */
  const ChainSeparator: string := " \U{2218} "

  /** parse_composition_op: the composition sign with optional spaces on both sides. */
  function CompositionOp(s: string, i: nat): (r: Parse<string>)
    requires i <= |s|
    ensures r.Parsed? <==> Occurs(s, SpaceEnd(s, i), CompositionSign)
    ensures r.Parsed? ==> i < r.pos <= |s| && r.value == CompositionSign
    ensures r.Parsed? ==>
      var k := SpaceEnd(s, i); SpaceSpan(s, i, k) && k < |s| && s[k] == '\U{2218}' && SpaceSpan(s, k + 1, r.pos)
  {
    var lead := Space0(s, i);
    var sign := Tag(s, lead.pos, CompositionSign);
    if sign.Fail? then Fail else
    var trail := Space0(s, sign.pos);
    Parsed(trail.pos, CompositionSign)
  }

  /** The loop of separated_list1(parse_composition_op, identifier) after the first element: a
      separator followed by an identifier adds that identifier; otherwise the list ends where it
      was before the separator. */
  function MoreIdentifiers(s: string, i: nat): (r: Parse<seq<string>>)
    requires i <= |s|
    ensures r.Parsed? && i <= r.pos <= |s|
    ensures forall k :: 0 <= k < |r.value| ==> IsIdentifier(r.value[k])
    decreases |s| - i
  {
    var op := CompositionOp(s, i);
    if op.Fail? then Parsed(i, [])
    else
      var id := Identifier(s, op.pos);
      if id.Fail? then Parsed(i, [])
      else
        var more := MoreIdentifiers(s, id.pos);
        Parsed(more.pos, [id.value] + more.value)
  }

  /** separated_list1(parse_composition_op, identifier): one or more identifiers joined by the
      composition sign. */
  function IdentifierList(s: string, i: nat): (r: Parse<seq<string>>)
    requires i <= |s|
    ensures r.Parsed? <==> i < |s| && IsIdentStart(s[i])
    ensures r.Parsed? ==> i < r.pos <= |s| && |r.value| >= 1
    ensures r.Parsed? ==> forall k :: 0 <= k < |r.value| ==> IsIdentifier(r.value[k])
  {
    var first := Identifier(s, i);
    if first.Fail? then Fail else
    var more := MoreIdentifiers(s, first.pos);
    Parsed(more.pos, [first.value] + more.value)
  }

  /** The identifiers joined by " ∘ ", the way a composition chain is written. */
  function Composed(ids: seq<string>): string
    requires |ids| >= 1
  {
    if |ids| == 1 then ids[0] else ids[0] + ChainSeparator + Composed(ids[1..])
  }

  /** A written chain starts with its first identifier. */
  lemma ComposedStart(ids: seq<string>)
    requires |ids| >= 1 && |ids[0]| >= 1
    ensures |Composed(ids)| >= 1 && Composed(ids)[0] == ids[0][0]
  {
  }

  /** Nothing at j can extend a statement that ends there: no identifier character, and no
      composition sign after optional spaces. */
  predicate Ends(s: string, j: nat)
    requires j <= |s|
  {
    !IdentCharAt(s, j) && !Occurs(s, SpaceEnd(s, j), CompositionSign)
  }

  /** A statement ends before a character that is neither an identifier character nor, after
      spaces, the composition sign. */
  lemma EndsAt(s: string, j: nat, e: nat)
    requires j <= |s| && !IdentCharAt(s, j) && SpaceSpan(s, j, e)
    requires e == |s| || s[e] != '\U{2218}'
    ensures Ends(s, j)
  {
    SpaceSpanIsSpaceEnd(s, j, e);
    assert CompositionSign[0] == '\U{2218}';
  }

  /** The separator " ∘ " in front of an identifier is recognised. */
  lemma SeparatorAt(s: string, p: nat)
    requires Occurs(s, p, ChainSeparator) && p + 3 < |s| && IsIdentStart(s[p + 3])
    ensures CompositionOp(s, p) == Parsed(p + 3, CompositionSign)
  {
    OccursAt(s, p, ChainSeparator, 0);
    OccursAt(s, p, ChainSeparator, 1);
    OccursAt(s, p, ChainSeparator, 2);
    SpaceSpanIsSpaceEnd(s, p, p + 1);
    OccursOf(s, p + 1, CompositionSign);
    SpaceSpanIsSpaceEnd(s, p + 2, p + 3);
  }

  /** A chain ends where no separator follows. */
  lemma MoreIdentifiersStop(s: string, p: nat)
    requires p <= |s| && Ends(s, p)
    ensures MoreIdentifiers(s, p) == Parsed(p, [])
  {
  }

  /** After a separator, the rest of a chain is read like a whole chain. */
  lemma MoreIdentifiersIsList(s: string, p: nat, q: nat)
    requires p <= |s| && q <= |s| && CompositionOp(s, p) == Parsed(q, CompositionSign)
    requires IdentifierList(s, q).Parsed?
    ensures MoreIdentifiers(s, p) == IdentifierList(s, q)
  {
  }

  /** The steps of separated_list1, put together. */
  lemma IdentifierListSteps(s: string, i: nat, p: nat, x: string, e: nat, xs: seq<string>)
    requires i <= |s| && p <= |s| && Identifier(s, i) == Parsed(p, x) && MoreIdentifiers(s, p) == Parsed(e, xs)
    ensures IdentifierList(s, i) == Parsed(e, [x] + xs)
  {
  }

  /** A chain written at i is read back, identifiers in order, when nothing after it can extend
      it. */
  lemma {:induction false} ChainPrinted(s: string, i: nat, ids: seq<string>)
    requires |ids| >= 1 && forall k :: 0 <= k < |ids| ==> IsIdentifier(ids[k])
    requires Occurs(s, i, Composed(ids)) && Ends(s, i + |Composed(ids)|)
    ensures IdentifierList(s, i) == Parsed(i + |Composed(ids)|, ids)
    decreases |ids|
  {
    var x := ids[0];
    var p := i + |x|;
    if |ids| == 1 {
      IdentifierPrinted(s, i, x);
      MoreIdentifiersStop(s, p);
      IdentifierListSteps(s, i, p, x, p, []);
      assert [x] + [] == ids;
    } else {
      var rest := Composed(ids[1..]);
      var e := i + |Composed(ids)|;
      OccursSplit(s, i, x + ChainSeparator, rest);
      OccursSplit(s, i, x, ChainSeparator);
      OccursAt(s, p, ChainSeparator, 0);
      assert IsIdentifier(ids[1]);
      ComposedStart(ids[1..]);
      OccursAt(s, p + 3, rest, 0);
      IdentifierPrinted(s, i, x);
      SeparatorAt(s, p);
      ChainPrinted(s, p + 3, ids[1..]);
      MoreIdentifiersIsList(s, p, p + 3);
      IdentifierListSteps(s, i, p, x, e, ids[1..]);
      assert [x] + ids[1..] == ids;
    }
  }

  /** parse_assert_commute: "assert commute:", optional spaces, a chain, optional spaces, "==",
      optional spaces, a chain, then any trailing blanks. */
  function ParseAssertCommute(s: string, i: nat): (r: Parse<Statement>)
    requires i <= |s|
    ensures r.Parsed? ==> Occurs(s, i, AssertKeyword) && i < r.pos <= |s| && !BlankAt(s, r.pos)
    ensures r.Parsed? ==> r.value.AssertCommute? && |r.value.lhs| >= 1 && |r.value.rhs| >= 1
    ensures r.Parsed? ==>
      (forall k :: 0 <= k < |r.value.lhs| ==> IsIdentifier(r.value.lhs[k]))
      && (forall k :: 0 <= k < |r.value.rhs| ==> IsIdentifier(r.value.rhs[k]))
  {
    var kw := Tag(s, i, AssertKeyword);
    if kw.Fail? then Fail else
    var s0 := Space0(s, kw.pos);
    var lhs := IdentifierList(s, s0.pos);
    if lhs.Fail? then Fail else
    AssertCommuteTail(s, lhs.pos, lhs.value)
  }

  /** The rest of parse_assert_commute after the left chain: optional spaces, "==", optional
      spaces, the right chain, then any trailing blanks. */
  function AssertCommuteTail(s: string, i: nat, lhs: seq<string>): (r: Parse<Statement>)
    requires i <= |s|
    ensures r.Parsed? ==> i < r.pos <= |s| && !BlankAt(s, r.pos)
    ensures r.Parsed? ==>
      r.value.AssertCommute? && r.value.lhs == lhs && |r.value.rhs| >= 1
      && forall k :: 0 <= k < |r.value.rhs| ==> IsIdentifier(r.value.rhs[k])
  {
    var s1 := Space0(s, i);
    var eq := Tag(s, s1.pos, Equals);
    if eq.Fail? then Fail else
    var s2 := Space0(s, eq.pos);
    var rhs := IdentifierList(s, s2.pos);
    if rhs.Fail? then Fail else
    var w := Whitespace(s, rhs.pos);
    Parsed(w.pos, AssertCommute(lhs, rhs.value))
  }

  /** The steps of parse_assert_commute up to the left chain, put together. */
  lemma AssertCommuteSteps(s: string, i: nat, a: nat, b: nat, h: nat, lhs: seq<string>, st: Statement)
    requires i + 15 <= |s| && Tag(s, i, AssertKeyword) == Parsed(i + 15, AssertKeyword)
    requires Space0(s, i + 15).pos == a
    requires a <= |s| && IdentifierList(s, a) == Parsed(b, lhs)
    requires b <= |s| && AssertCommuteTail(s, b, lhs) == Parsed(h, st)
    ensures ParseAssertCommute(s, i) == Parsed(h, st)
  {
  }

  /** The steps of parse_assert_commute after the left chain, put together. */
  lemma AssertCommuteTailSteps(s: string, b: nat, c: nat, d: nat, e: nat, h: nat, lhs: seq<string>, rhs: seq<string>)
    requires b <= |s| && Space0(s, b).pos == c
    requires c + 2 <= |s| && Tag(s, c, Equals) == Parsed(c + 2, Equals)
    requires Space0(s, c + 2).pos == d
    requires d <= |s| && IdentifierList(s, d) == Parsed(e, rhs)
    requires e <= |s| && Whitespace(s, e).pos == h
    ensures AssertCommuteTail(s, b, lhs) == Parsed(h, AssertCommute(lhs, rhs))
  {
  }

  /** parse_statement: optional leading blanks, then the first of parse_object, parse_morphism and
      parse_assert_commute that succeeds. The second whitespace call is applied to the input
      after the leading blanks, that is, to the start of the statement, not to its end, and its
      result is discarded: the rest is what the successful alternative left. */
  function ParseStatement(s: string, i: nat): (r: Parse<Statement>)
    requires i <= |s|
    ensures var t := Whitespace(s, i).pos;
      !Occurs(s, t, ObjectKeyword) && !Occurs(s, t, MorphismKeyword) && !Occurs(s, t, AssertKeyword) ==> r.Fail?
    ensures r.Parsed? ==> i < r.pos <= |s| && Printable(r.value)
    ensures r.Parsed? ==> Whitespace(s, r.pos).pos == r.pos
  {
    var lead := Whitespace(s, i);
    var t := lead.pos;
    var obj := ParseObject(s, t);
    var r := if obj.Parsed? then obj else
      var mor := ParseMorphism(s, t);
      if mor.Parsed? then mor else ParseAssertCommute(s, t);
    if r.Parsed? then (WhitespaceOfSpan(s, r.pos, r.pos); r) else r
  }

  /** The steps of parse_statement, put together: the first alternative that succeeds after the
      leading blanks decides. */
  lemma StatementSteps(s: string, i0: nat, i: nat, h: nat, st: Statement)
    requires i0 <= i <= |s| && Whitespace(s, i0).pos == i
    requires ParseObject(s, i) == Parsed(h, st)
      || (ParseObject(s, i).Fail? && ParseMorphism(s, i) == Parsed(h, st))
      || (ParseObject(s, i).Fail? && ParseMorphism(s, i).Fail? && ParseAssertCommute(s, i) == Parsed(h, st))
    ensures ParseStatement(s, i0) == Parsed(h, st)
  {
  }

  /** The three statement parsers exclude one another: their keywords start with different
      letters, so at most one succeeds at any position and the order in which alt tries them never
      changes the result. */
  lemma AlternativesExclusive(s: string, t: nat)
    requires t <= |s|
    ensures ParseObject(s, t).Parsed? ==> ParseMorphism(s, t).Fail? && ParseAssertCommute(s, t).Fail?
    ensures ParseMorphism(s, t).Parsed? ==> ParseAssertCommute(s, t).Fail?
  {
  }

  /** A statement the printer can write: identifiers throughout and non-empty chains. */
  predicate Printable(st: Statement) {
    match st
    case Object(name) => IsIdentifier(name)
    case Morphism(name, from, to) => IsIdentifier(name) && IsIdentifier(from) && IsIdentifier(to)
    case AssertCommute(lhs, rhs) =>
      |lhs| >= 1 && |rhs| >= 1
      && (forall k :: 0 <= k < |lhs| ==> IsIdentifier(lhs[k]))
      && (forall k :: 0 <= k < |rhs| ==> IsIdentifier(rhs[k]))
  }

  /** A statement in the written form of the examples: single spaces, "f: A -> B", " ∘ " and
      " == ". */
  function StatementText(st: Statement): (t: string)
    requires Printable(st)
    ensures |t| > 0 && t[0] in {'o', 'm', 'a'}
  {
    match st
    case Object(name) => ObjectKeyword + " " + name
    case Morphism(name, from, to) => MorphismKeyword + " " + name + Colon + " " + from + " " + Arrow + " " + to
    case AssertCommute(lhs, rhs) => AssertKeyword + " " + Composed(lhs) + " " + Equals + " " + Composed(rhs)
  }

  lemma ObjectPrinted(s: string, i: nat, name: string, h: nat)
    requires IsIdentifier(name) && Occurs(s, i, StatementText(Object(name)))
    requires var j := i + |StatementText(Object(name))|; BlankSpan(s, j, h) && Ends(s, j)
    ensures ParseObject(s, i) == Parsed(h, Object(name))
  {
    OccursSplit(s, i, ObjectKeyword + " ", name);
    OccursSplit(s, i, ObjectKeyword, " ");
    OccursAt(s, i + 6, " ", 0);
    IdentAt(s, i + 7, name);
    OneSpace(s, i + 6);
    WhitespaceOfSpan(s, i + 7 + |name|, h);
    ObjectSteps(s, i, i + 7, i + 7 + |name|, h, name);
  }

  lemma MorphismPrinted(s: string, i: nat, name: string, from: string, to: string, h: nat)
    requires Printable(Morphism(name, from, to)) && Occurs(s, i, StatementText(Morphism(name, from, to)))
    requires var j := i + |StatementText(Morphism(name, from, to))|; BlankSpan(s, j, h) && Ends(s, j)
    ensures ParseMorphism(s, i) == Parsed(h, Morphism(name, from, to))
  {
    var a := i + 9;
    var b := a + |name|;
    var c := b + 2;
    var d := c + |from|;
    var e := d + 1;
    var f := e + 3;
    var p1 := MorphismKeyword + " ";
    var p2 := p1 + name;
    var p3 := p2 + Colon;
    var p4 := p3 + " ";
    var p5 := p4 + from;
    var p6 := p5 + " ";
    var p7 := p6 + Arrow;
    var p8 := p7 + " ";
    OccursSplit(s, i, p8, to);
    OccursSplit(s, i, p7, " ");
    OccursSplit(s, i, p6, Arrow);
    OccursSplit(s, i, p5, " ");
    OccursSplit(s, i, p4, from);
    OccursSplit(s, i, p3, " ");
    OccursSplit(s, i, p2, Colon);
    OccursSplit(s, i, p1, name);
    OccursSplit(s, i, MorphismKeyword, " ");
    MorphismPieces(s, i, name, from, to, h);
  }

  /** The pieces of a written morphism declaration, read one by one. */
  lemma MorphismPieces(s: string, i: nat, name: string, from: string, to: string, h: nat)
    requires IsIdentifier(name) && IsIdentifier(from) && IsIdentifier(to)
    requires Occurs(s, i, MorphismKeyword) && Occurs(s, i + 8, " ") && Occurs(s, i + 9, name)
    requires var b := i + 9 + |name|; Occurs(s, b, Colon) && Occurs(s, b + 1, " ") && Occurs(s, b + 2, from)
    requires var d := i + 11 + |name| + |from|; Occurs(s, d, " ") && Occurs(s, d + 1, Arrow) && Occurs(s, d + 3, " ")
    requires var f := i + 15 + |name| + |from|; Occurs(s, f, to)
    requires var g := i + 15 + |name| + |from| + |to|; BlankSpan(s, g, h) && !IdentCharAt(s, g)
    ensures ParseMorphism(s, i) == Parsed(h, Morphism(name, from, to))
  {
    var a := i + 9;
    var b := a + |name|;
    OccursAt(s, i + 8, " ", 0);
    OccursAt(s, b, Colon, 0);
    IdentAt(s, a, name);
    OneSpace(s, i + 8);
    MorphismTailPieces(s, b + 1, name, from, to, h);
    MorphismSteps(s, i, a, b, h, name, Morphism(name, from, to));
  }

  /** The pieces of a written morphism declaration after the colon, read one by one. */
  lemma MorphismTailPieces(s: string, p: nat, name: string, from: string, to: string, h: nat)
    requires IsIdentifier(from) && IsIdentifier(to)
    requires Occurs(s, p, " ") && Occurs(s, p + 1, from)
    requires var d := p + 1 + |from|; Occurs(s, d, " ") && Occurs(s, d + 1, Arrow) && Occurs(s, d + 3, " ")
    requires var f := p + 5 + |from|; Occurs(s, f, to)
    requires var g := p + 5 + |from| + |to|; BlankSpan(s, g, h) && !IdentCharAt(s, g)
    ensures MorphismTail(s, p, name) == Parsed(h, Morphism(name, from, to))
  {
    var c := p + 1;
    var d := c + |from|;
    var e := d + 1;
    var f := e + 3;
    OccursAt(s, p, " ", 0);
    OccursAt(s, d, " ", 0);
    OccursAt(s, e, Arrow, 0);
    OccursAt(s, e + 2, " ", 0);
    IdentAt(s, c, from);
    IdentAt(s, f, to);
    OneSpace(s, p);
    OneSpace(s, d);
    OneSpace(s, e + 2);
    WhitespaceOfSpan(s, f + |to|, h);
    MorphismTailSteps(s, p, c, d, e, f, f + |to|, h, name, from, to);
  }

  lemma AssertCommutePrinted(s: string, i: nat, lhs: seq<string>, rhs: seq<string>, h: nat)
    requires Printable(AssertCommute(lhs, rhs)) && Occurs(s, i, StatementText(AssertCommute(lhs, rhs)))
    requires var j := i + |StatementText(AssertCommute(lhs, rhs))|; BlankSpan(s, j, h) && Ends(s, j)
    ensures ParseAssertCommute(s, i) == Parsed(h, AssertCommute(lhs, rhs))
  {
    var l, r := Composed(lhs), Composed(rhs);
    var q1 := AssertKeyword + " ";
    var q2 := q1 + l;
    var q3 := q2 + " ";
    var q4 := q3 + Equals;
    var q5 := q4 + " ";
    OccursSplit(s, i, q5, r);
    OccursSplit(s, i, q4, " ");
    OccursSplit(s, i, q3, Equals);
    OccursSplit(s, i, q2, " ");
    OccursSplit(s, i, q1, l);
    OccursSplit(s, i, AssertKeyword, " ");
    AssertCommutePieces(s, i, lhs, rhs, h);
  }

  /** The pieces of a written commutativity assertion, read one by one. */
  lemma AssertCommutePieces(s: string, i: nat, lhs: seq<string>, rhs: seq<string>, h: nat)
    requires Printable(AssertCommute(lhs, rhs))
    requires Occurs(s, i, AssertKeyword) && Occurs(s, i + 15, " ") && Occurs(s, i + 16, Composed(lhs))
    requires var b := i + 16 + |Composed(lhs)|; Occurs(s, b, " ") && Occurs(s, b + 1, Equals) && Occurs(s, b + 3, " ")
    requires var c := i + 20 + |Composed(lhs)|; Occurs(s, c, Composed(rhs))
    requires var j := i + 20 + |Composed(lhs)| + |Composed(rhs)|; BlankSpan(s, j, h) && Ends(s, j)
    ensures ParseAssertCommute(s, i) == Parsed(h, AssertCommute(lhs, rhs))
  {
    var a := i + 16;
    var b := a + |Composed(lhs)|;
    AssertCommuteHead(s, i);
    AssertCommuteLeftPieces(s, i, lhs);
    AssertCommuteTailPieces(s, b, lhs, rhs, h);
    AssertCommuteSteps(s, i, a, b, h, lhs, AssertCommute(lhs, rhs));
  }

  /** The keyword of a commutativity assertion, read by its own parser. */
  lemma AssertCommuteHead(s: string, i: nat)
    requires i <= |s| && Occurs(s, i, AssertKeyword)
    ensures i + 15 <= |s| && Tag(s, i, AssertKeyword) == Parsed(i + 15, AssertKeyword)
  {
  }

  /** The left chain of a written commutativity assertion, read up to the space before "==". */
  lemma AssertCommuteLeftPieces(s: string, i: nat, lhs: seq<string>)
    requires |lhs| >= 1 && forall k :: 0 <= k < |lhs| ==> IsIdentifier(lhs[k])
    requires Occurs(s, i + 15, " ") && Occurs(s, i + 16, Composed(lhs))
    requires var b := i + 16 + |Composed(lhs)|; Occurs(s, b, " ") && Occurs(s, b + 1, Equals)
    ensures Space0(s, i + 15).pos == i + 16
    ensures IdentifierList(s, i + 16) == Parsed(i + 16 + |Composed(lhs)|, lhs)
  {
    var l := Composed(lhs);
    var a := i + 16;
    var b := a + |l|;
    assert IsIdentifier(lhs[0]);
    ComposedStart(lhs);
    OccursAt(s, i + 15, " ", 0);
    OccursAt(s, a, l, 0);
    OccursAt(s, b, " ", 0);
    OccursAt(s, b + 1, Equals, 0);
    OneSpace(s, i + 15);
    OneSpace(s, b);
    EndsAt(s, b, b + 1);
    ChainPrinted(s, a, lhs);
  }

  /** The pieces of a written commutativity assertion after the left chain, read one by one. */
  lemma AssertCommuteTailPieces(s: string, b: nat, lhs: seq<string>, rhs: seq<string>, h: nat)
    requires |rhs| >= 1 && forall k :: 0 <= k < |rhs| ==> IsIdentifier(rhs[k])
    requires Occurs(s, b, " ") && Occurs(s, b + 1, Equals) && Occurs(s, b + 3, " ") && Occurs(s, b + 4, Composed(rhs))
    requires var j := b + 4 + |Composed(rhs)|; BlankSpan(s, j, h) && Ends(s, j)
    ensures AssertCommuteTail(s, b, lhs) == Parsed(h, AssertCommute(lhs, rhs))
  {
    var c := b + 4;
    AssertCommuteRightPieces(s, b, rhs, h);
    AssertCommuteTailSteps(s, b, b + 1, c, c + |Composed(rhs)|, h, lhs, rhs);
  }

  /** The right-hand side of a written commutativity assertion: the spaces around "==", the chain
      and the blanks after it, each read by its own parser. */
  lemma AssertCommuteRightPieces(s: string, b: nat, rhs: seq<string>, h: nat)
    requires |rhs| >= 1 && forall k :: 0 <= k < |rhs| ==> IsIdentifier(rhs[k])
    requires Occurs(s, b, " ") && Occurs(s, b + 1, Equals) && Occurs(s, b + 3, " ") && Occurs(s, b + 4, Composed(rhs))
    requires var j := b + 4 + |Composed(rhs)|; BlankSpan(s, j, h) && Ends(s, j)
    ensures b + 4 + |Composed(rhs)| <= |s|
    ensures Space0(s, b).pos == b + 1
    ensures b + 3 <= |s| && Tag(s, b + 1, Equals) == Parsed(b + 3, Equals)
    ensures Space0(s, b + 3).pos == b + 4
    ensures IdentifierList(s, b + 4) == Parsed(b + 4 + |Composed(rhs)|, rhs)
    ensures Whitespace(s, b + 4 + |Composed(rhs)|).pos == h
  {
    var r := Composed(rhs);
    var c := b + 4;
    assert IsIdentifier(rhs[0]);
    ComposedStart(rhs);
    OccursAt(s, b, " ", 0);
    OccursAt(s, b + 1, Equals, 0);
    OccursAt(s, b + 3, " ", 0);
    OccursAt(s, c, r, 0);
    OneSpace(s, b);
    OneSpace(s, b + 3);
    ChainPrinted(s, c, rhs);
    WhitespaceOfSpan(s, c + |r|, h);
  }

  /** parse_statement reads back every printable statement written at i after a run of blanks,
      provided the text after it cannot extend it. */
  lemma StatementPrinted(s: string, i0: nat, i: nat, st: Statement, h: nat)
    requires Printable(st) && Occurs(s, i, StatementText(st)) && i0 <= i && Blanks(s, i0, i)
    requires var j := i + |StatementText(st)|; BlankSpan(s, j, h) && Ends(s, j)
    ensures ParseStatement(s, i0) == Parsed(h, st)
  {
    OccursAt(s, i, StatementText(st), 0);
    WhitespaceOfSpan(s, i0, i);
    assert ObjectKeyword[0] == 'o' && MorphismKeyword[0] == 'm';
    match st
    case Object(name) =>
      ObjectPrinted(s, i, name, h);
      StatementSteps(s, i0, i, h, st);
    case Morphism(name, from, to) =>
      MorphismPrinted(s, i, name, from, to, h);
      StatementSteps(s, i0, i, h, st);
    case AssertCommute(lhs, rhs) =>
      AssertCommutePrinted(s, i, lhs, rhs, h);
      StatementSteps(s, i0, i, h, st);
  }

  /** many1(line_ending): one or more line endings. */
  function LineEndings(s: string, i: nat): (r: Parse<seq<string>>)
    requires i <= |s|
    ensures r.Parsed? <==> LineEndingAt(s, i)
    ensures r.Parsed? ==> i < r.pos <= |s|
    decreases |s| - i
  {
    var first := LineEnding(s, i);
    if first.Fail? then Fail else
    var more := LineEndings(s, first.pos);
    if more.Fail? then Parsed(first.pos, [first.value])
    else Parsed(more.pos, [first.value] + more.value)
  }

  /** The loop of separated_list1(many1(line_ending), parse_statement) after the first statement:
      line endings followed by a statement add that statement; otherwise the list ends where it
      was before the line endings. */
  function MoreStatements(s: string, i: nat): (r: Parse<seq<Statement>>)
    requires i <= |s|
    ensures r.Parsed? && i <= r.pos <= |s|
    ensures !LineEndingAt(s, i) ==> r == Parsed(i, [])
    decreases |s| - i
  {
    var sep := LineEndings(s, i);
    if sep.Fail? then Parsed(i, [])
    else
      var st := ParseStatement(s, sep.pos);
      if st.Fail? then Parsed(i, [])
      else
        var more := MoreStatements(s, st.pos);
        Parsed(more.pos, [st.value] + more.value)
  }

  /** parse_category_file as written: statements separated by one or more line endings. Every
      statement has already swallowed the line endings after it, so the separator never matches:
      the file holds exactly its first statement and the rest of the input is left unread. */
  function ParseCategoryFile(s: string, i: nat): (r: Parse<CategoryAst>)
    requires i <= |s|
    ensures r.Parsed? <==> ParseStatement(s, i).Parsed?
    ensures r.Parsed? ==>
      r.value.statements == [ParseStatement(s, i).value] && r.pos == ParseStatement(s, i).pos
  {
    var first := ParseStatement(s, i);
    if first.Fail? then Fail else
    var more := MoreStatements(s, first.pos);
    Parsed(more.pos, CategoryAst([first.value] + more.value))
  }

  /** many1(parse_statement): every statement in turn until one fails. */
  function Statements(s: string, i: nat): (r: Parse<seq<Statement>>)
    requires i <= |s|
    ensures r.Parsed? <==> ParseStatement(s, i).Parsed?
    ensures r.Parsed? ==> i < r.pos <= |s| && ParseStatement(s, r.pos).Fail?
    ensures r.Parsed? ==> |r.value| >= 1 && forall k :: 0 <= k < |r.value| ==> Printable(r.value[k])
    decreases |s| - i
  {
    var first := ParseStatement(s, i);
    if first.Fail? then Fail else
    var more := Statements(s, first.pos);
    if more.Fail? then Parsed(first.pos, [first.value])
    else Parsed(more.pos, [first.value] + more.value)
  }

  /** The steps of many1, put together: a statement followed by more statements. */
  lemma StatementsSteps(s: string, i: nat, p: nat, st: Statement, e: nat, sts: seq<Statement>)
    requires i <= |s| && p <= |s| && ParseStatement(s, i) == Parsed(p, st) && Statements(s, p) == Parsed(e, sts)
    ensures Statements(s, i) == Parsed(e, [st] + sts)
  {
  }

  /** The steps of many1, put together: a statement followed by none. */
  lemma StatementsLast(s: string, i: nat, p: nat, st: Statement)
    requires i <= |s| && p <= |s| && ParseStatement(s, i) == Parsed(p, st) && ParseStatement(s, p).Fail?
    ensures Statements(s, i) == Parsed(p, [st])
  {
  }

  /** The corrected parse_category_file: many1(parse_statement), which reads every statement of
      the file, each statement taking the line endings after it. */
  function ParseAllStatements(s: string, i: nat): (r: Parse<CategoryAst>)
    requires i <= |s|
    ensures r.Parsed? <==> ParseStatement(s, i).Parsed?
    ensures r.Parsed? ==> i < r.pos <= |s| && |r.value.statements| >= 1 && ParseStatement(s, r.pos).Fail?
  {
    var sts := Statements(s, i);
    if sts.Fail? then Fail else
    Parsed(sts.pos, CategoryAst(sts.value))
  }

  /** A file of printable statements, one per line. */
  function FileText(sts: seq<Statement>): (t: string)
    requires forall k :: 0 <= k < |sts| ==> Printable(sts[k])
    ensures sts != [] ==> |t| > 0 && t[0] in {'o', 'm', 'a'}
  {
    if sts == [] then "" else StatementText(sts[0]) + "\n" + FileText(sts[1..])
  }

  /** No statement starts at the end of the input. */
  lemma NothingAtEnd(s: string)
    ensures ParseStatement(s, |s|).Fail?
  {
    WhitespaceOfSpan(s, |s|, |s|);
  }

  /** s from i on holds the statements sts, each written on a line of its own. */
  predicate Lines(s: string, i: nat, sts: seq<Statement>)
    decreases |sts|
  {
    if sts == [] then i == |s|
    else
      Printable(sts[0])
      && var j := i + |StatementText(sts[0])|;
      Occurs(s, i, StatementText(sts[0])) && j < |s| && s[j] == '\n' && Lines(s, j + 1, sts[1..])
  }

  /** A written file is its statements, line by line. */
  lemma {:induction false} FileLines(s: string, i: nat, sts: seq<Statement>)
    requires forall k :: 0 <= k < |sts| ==> Printable(sts[k])
    requires Occurs(s, i, FileText(sts)) && i + |FileText(sts)| == |s|
    ensures Lines(s, i, sts)
    decreases |sts|
  {
    if sts != [] {
      var text := StatementText(sts[0]);
      var tail := FileText(sts[1..]);
      var j := i + |text|;
      OccursSplit(s, i, text + "\n", tail);
      OccursSplit(s, i, text, "\n");
      OccursAt(s, j, "\n", 0);
      FileLines(s, j + 1, sts[1..]);
    }
  }

  /** Every line starts with the first letter of a keyword, unless the input has ended. */
  lemma LineStart(s: string, i: nat, sts: seq<Statement>)
    requires Lines(s, i, sts)
    ensures i == |s| || (i < |s| && s[i] in {'o', 'm', 'a'})
  {
    if sts != [] {
      OccursAt(s, i, StatementText(sts[0]), 0);
    }
  }

  /** A line ending that is followed by no blank ends a statement and is its whole blank run. */
  lemma LineBreak(s: string, j: nat)
    requires j < |s| && s[j] == '\n' && (j + 1 == |s| || s[j + 1] in {'o', 'm', 'a'})
    ensures BlankSpan(s, j, j + 1) && Ends(s, j)
  {
    assert Blanks(s, j + 1, j + 1);
    assert SpaceSpan(s, j, j);
    EndsAt(s, j, j);
  }

  /** The first line is read back with the line ending after it, and the other lines follow. */
  lemma FirstLine(s: string, i: nat, sts: seq<Statement>)
    requires |sts| >= 1 && Lines(s, i, sts)
    ensures i <= |s| && ParseStatement(s, i).Parsed? && ParseStatement(s, i).value == sts[0]
    ensures Lines(s, ParseStatement(s, i).pos, sts[1..])
  {
    var j := i + |StatementText(sts[0])|;
    LineStart(s, j + 1, sts[1..]);
    LineBreak(s, j);
    StatementPrinted(s, i, i, sts[0], j + 1);
  }

  /** A single line ending the input is read back as a file of one statement. */
  lemma LastLine(s: string, i: nat, sts: seq<Statement>)
    requires |sts| == 1 && Lines(s, i, sts)
    ensures Statements(s, i) == Parsed(|s|, sts)
  {
    FirstLine(s, i, sts);
    var j := ParseStatement(s, i).pos;
    NothingAtEnd(s);
    StatementsLast(s, i, j, sts[0]);
    assert [sts[0]] == sts;
  }

  /** Lines of printable statements, ending the input, are read back whole by the corrected
      parser. */
  lemma {:induction false} LinesPrinted(s: string, i: nat, sts: seq<Statement>)
    requires |sts| >= 1 && Lines(s, i, sts)
    ensures Statements(s, i) == Parsed(|s|, sts)
    decreases |sts|
  {
    if |sts| == 1 {
      LastLine(s, i, sts);
    } else {
      FirstLine(s, i, sts);
      var j := ParseStatement(s, i).pos;
      LinesPrinted(s, j, sts[1..]);
      StatementsSteps(s, i, j, sts[0], |s|, sts[1..]);
      assert [sts[0]] + sts[1..] == sts;
    }
  }

  /** The corrected parser reads a whole file of printable statements, in order. */
  lemma AllStatementsPrinted(sts: seq<Statement>)
    requires |sts| >= 1 && forall k :: 0 <= k < |sts| ==> Printable(sts[k])
    ensures ParseAllStatements(FileText(sts), 0) == Parsed(|FileText(sts)|, CategoryAst(sts))
  {
    OccursOf(FileText(sts), 0, FileText(sts));
    FileLines(FileText(sts), 0, sts);
    LinesPrinted(FileText(sts), 0, sts);
  }

  /** The file parser as written stops after the first line of a two-line file: the second
      declaration is left in the unread rest. */
  lemma CategoryFileStopsAfterFirstLine(s: string)
    requires s == "object A\nobject B"
    ensures ParseCategoryFile(s, 0) == Parsed(9, CategoryAst([Object("A")]))
    ensures s[9..] == "object B"
  {
    assert StatementText(Object("A")) == "object A";
    OccursOf(s, 0, StatementText(Object("A")));
    LineBreak(s, 8);
    StatementPrinted(s, 0, 0, Object("A"), 9);
  }

  /** The unit tests' examples. */
  lemma ObjectExample(s: string, t: string)
    requires s == "object A" && t == "objectA"
    ensures ParseObject(s, 0) == Parsed(8, Object("A"))
    ensures ParseObject(t, 0).Fail?
  {
    assert StatementText(Object("A")) == s;
    OccursOf(s, 0, s);
    EndOfInput(s);
    ObjectPrinted(s, 0, "A", 8);
    OccursOf(t, 0, ObjectKeyword);
    assert !SpaceAt(t, 6);
  }

  lemma MorphismExample(s: string)
    requires s == "morphism f: A -> B"
    ensures ParseMorphism(s, 0) == Parsed(18, Morphism("f", "A", "B"))
  {
    assert StatementText(Morphism("f", "A", "B")) == s;
    OccursOf(s, 0, s);
    EndOfInput(s);
    MorphismPrinted(s, 0, "f", "A", "B", 18);
  }

  lemma MorphismSpaceBeforeColonExample(s: string)
    requires s == "morphism f : A -> B"
    ensures ParseMorphism(s, 0).Fail?
  {
    assert SpaceSpan(s, 8, 9) && IdentSpan(s, 9, 10);
    assert Colon[0] == ':';
    MorphismColonAfterName(s, 0, 9, 10);
  }

  lemma AssertCommuteExample(s: string)
    requires s == "assert commute: g " + CompositionSign + " f == h"
    ensures ParseAssertCommute(s, 0) == Parsed(26, AssertCommute(["g", "f"], ["h"]))
  {
    AssertCommuteExampleText(s);
    OccursOf(s, 0, s);
    EndOfInput(s);
    AssertCommutePrinted(s, 0, ["g", "f"], ["h"], 26);
  }

  /** The example assertion is the printed form of its chains. */
  lemma AssertCommuteExampleText(s: string)
    requires s == "assert commute: g " + CompositionSign + " f == h"
    ensures Printable(AssertCommute(["g", "f"], ["h"]))
    ensures StatementText(AssertCommute(["g", "f"], ["h"])) == s && |s| == 26
  {
    assert Composed(["g", "f"]) == "g" + ChainSeparator + "f" by {
      assert ["g", "f"][1..] == ["f"];
    }
  }

  /** The end of the input ends a statement, with no blanks after it. */
  lemma EndOfInput(s: string)
    ensures BlankSpan(s, |s|, |s|) && Ends(s, |s|)
  {
    assert Blanks(s, |s|, |s|);
    assert SpaceSpan(s, |s|, |s|);
    EndsAt(s, |s|, |s|);
  }
}
