/**
  The Lisp token grammar (src/parse.c:30-134): seven token classes registered
  with the generic tokenizer in a fixed order. The seven regular expressions
  are simple character classes, so each is given here as a hand-written
  recogniser reporting the simulation state after a prefix.
*/
module LispTokens {
  import opened Wrappers
  import opened Tokenizer
  import opened Faults

  /** The token tags WHITESPACE .. OPEN_LIST (0 .. 6). */
  datatype Tag = Whitespace | OpenParen | CloseParen | IdentifierTag | AtomTag | IntegerTag | OpenList

  /** lisp_token: a tag and, for atoms, identifiers and integers, the matched text. */
  datatype Token = Token(tag: Tag, text: Option<string>)

  /** The characters of the regex class \s. */
  predicate IsSpace(c: char) {
    c == ' ' || c == '\t' || c == '\n' || c == '\r' || c == '\U{B}' || c == '\U{C}'
  }

  /** The characters of \d. */
  predicate IsDigit(c: char) {
    '0' <= c <= '9'
  }

  /** The bracket class of parse.c:93: ASCII letters, digits and the symbols _ + / * ? % $ = - */
  predicate IsNameChar(c: char) {
    ('a' <= c <= 'z') || ('A' <= c <= 'Z') || IsDigit(c) ||
    c == '_' || c == '+' || c == '/' || c == '*' || c == '?' || c == '%' || c == '$' || c == '=' || c == '-'
  }

  /** The first-character class of parse.c:92: a name character that is not a digit. */
  predicate IsIdentStart(c: char) {
    IsNameChar(c) && !IsDigit(c)
  }

  predicate AllSpace(w: string) {
    forall k :: 0 <= k < |w| ==> IsSpace(w[k])
  }

  predicate AllDigits(w: string) {
    forall k :: 0 <= k < |w| ==> IsDigit(w[k])
  }

  /** Every character of w from index `from` on is a name character. */
  predicate NameCharsFrom(w: string, from: nat) {
    forall k :: from <= k < |w| ==> IsNameChar(w[k])
  }

  /** \s+ */
  function WhitespaceState(w: string): (r: SimState)
    ensures IsAccepting(r) <==> Spelled(Whitespace, w)
    ensures r == NotAccepting <==> w == []
  {
    if |w| == 0 then NotAccepting
    else if AllSpace(w) then Accepting
    else Rejected
  }

  /** A single literal character c. */
  function SingleState(c: char, w: string): (r: SimState)
    ensures IsAccepting(r) <==> w == [c]
    ensures r == NotAccepting <==> w == []
  {
    if |w| == 0 then NotAccepting
    else if w == [c] then Accepting
    else Rejected
  }

  /** \( */
  function OpenParenState(w: string): (r: SimState)
    ensures IsAccepting(r) <==> Spelled(OpenParen, w)
    ensures r == NotAccepting <==> w == []
  {
    SingleState('(', w)
  }

  /** \) */
  function CloseParenState(w: string): (r: SimState)
    ensures IsAccepting(r) <==> Spelled(CloseParen, w)
    ensures r == NotAccepting <==> w == []
  {
    SingleState(')', w)
  }

  /** Identifiers (parse.c:92): an identifier-start character, then any name characters. */
  function IdentifierState(w: string): (r: SimState)
    ensures IsAccepting(r) <==> Spelled(IdentifierTag, w)
    ensures r == NotAccepting <==> w == []
  {
    if |w| == 0 then NotAccepting
    else if IsIdentStart(w[0]) && NameCharsFrom(w, 1) then Accepting
    else Rejected
  }

  /** Atoms (parse.c:93): a quote, then one or more name characters. */
  function AtomState(w: string): (r: SimState)
    ensures IsAccepting(r) <==> Spelled(AtomTag, w)
    ensures r == NotAccepting <==> w == [] || w == "'"
  {
    if |w| == 0 then NotAccepting
    else if w[0] != '\'' || !NameCharsFrom(w, 1) then Rejected
    else if |w| == 1 then NotAccepting
    else Accepting
  }

  /** \d+ */
  function IntegerState(w: string): (r: SimState)
    ensures IsAccepting(r) <==> Spelled(IntegerTag, w)
    ensures r == NotAccepting <==> w == []
  {
    if |w| == 0 then NotAccepting
    else if AllDigits(w) then Accepting
    else Rejected
  }

  /** '\( */
  function OpenListState(w: string): (r: SimState)
    ensures IsAccepting(r) <==> Spelled(OpenList, w)
    ensures r == NotAccepting <==> w == [] || w == "'"
  {
    if |w| == 0 || w == "'" then NotAccepting
    else if w == "'(" then Accepting
    else Rejected
  }

  /** The tag order of lisp_create_lexer; it decides ties between equally long matches. */
  const TagOrder: seq<Tag> := [Whitespace, OpenParen, CloseParen, IdentifierTag, AtomTag, IntegerTag, OpenList]

  /** The patterns in registration order. */
  function Patterns(): (r: seq<Pattern>)
    ensures |r| == |TagOrder|
  {
    [WhitespaceState, OpenParenState, CloseParenState, IdentifierState, AtomState, IntegerState, OpenListState]
  }

  /** The pattern registered with each tag accepts exactly the words spelled like that tag. */
  lemma PatternsSpell(tag: Tag, w: string)
    ensures IsAccepting(Patterns()[Rank(tag)](w)) <==> Spelled(tag, w)
  {
  }

  /** lisp_create_lexer: the seven registrations, in order. */
  function LispLexer(): (lex: Lexer<Tag>)
    ensures Valid(lex) && lex.tokens == TagOrder && lex.patterns == Patterns()
  {
    var l0 := Create();
    var l1 := AddToken(l0, WhitespaceState, Whitespace);
    var l2 := AddToken(l1, OpenParenState, OpenParen);
    var l3 := AddToken(l2, CloseParenState, CloseParen);
    var l4 := AddToken(l3, IdentifierState, IdentifierTag);
    var l5 := AddToken(l4, AtomState, AtomTag);
    var l6 := AddToken(l5, IntegerState, IntegerTag);
    AddToken(l6, OpenListState, OpenList)
  }

  /** Each recogniser, like an automaton simulation, never leaves the rejected state. */
  lemma PatternsAbsorbing()
    ensures forall i :: 0 <= i < |Patterns()| ==> Absorbing(Patterns()[i])
  {
    forall w: string, c: char | WhitespaceState(w) == Rejected
      ensures WhitespaceState(w + [c]) == Rejected
    {
      var k :| 0 <= k < |w| && !IsSpace(w[k]);
      assert (w + [c])[k] == w[k];
    }
    forall w: string, c: char | OpenParenState(w) == Rejected
      ensures OpenParenState(w + [c]) == Rejected
    {
      assert |w + [c]| >= 2;
    }
    forall w: string, c: char | CloseParenState(w) == Rejected
      ensures CloseParenState(w + [c]) == Rejected
    {
      assert |w + [c]| >= 2;
    }
    forall w: string, c: char | IdentifierState(w) == Rejected
      ensures IdentifierState(w + [c]) == Rejected
    {
      assert (w + [c])[0] == w[0];
      if IsIdentStart(w[0]) {
        var k :| 1 <= k < |w| && !IsNameChar(w[k]);
        assert (w + [c])[k] == w[k];
      }
    }
    forall w: string, c: char | AtomState(w) == Rejected
      ensures AtomState(w + [c]) == Rejected
    {
      assert (w + [c])[0] == w[0];
      if w[0] == '\'' {
        var k :| 1 <= k < |w| && !IsNameChar(w[k]);
        assert (w + [c])[k] == w[k];
      }
    }
    forall w: string, c: char | IntegerState(w) == Rejected
      ensures IntegerState(w + [c]) == Rejected
    {
      var k :| 0 <= k < |w| && !IsDigit(w[k]);
      assert (w + [c])[k] == w[k];
    }
    forall w: string, c: char | OpenListState(w) == Rejected
      ensures OpenListState(w + [c]) == Rejected
    {
      if |w| == 1 {
        assert w != "'";
        assert (w + [c])[0] == w[0];
      } else {
        assert |w + [c]| >= 3;
      }
    }
  }

  /** No recogniser accepts or keeps alive a prefix holding the string terminator. */
  lemma NulRejected(w: string)
    requires '\0' in w
    ensures AllReject(Patterns(), w)
  {
    var k :| 0 <= k < |w| && w[k] == '\0';
    assert !IsSpace(w[k]) && !IsNameChar(w[k]) && !IsDigit(w[k]);
    if |w| == 1 {
      assert w == ['\0'];
    }
  }

  /**
    lex_yylex with the Lisp lexer on an input that ends in the string
    terminator: it always finishes, and the match never reaches the
    terminator.
  */
  lemma LispYylexFinishes(input: string)
    requires |input| > 0 && input[|input| - 1] == '\0'
    ensures var r := Yylex(LispLexer(), input);
            r.Some? && r.value.length < |input|
  {
    NulRejected(input);
    YylexFinishes(LispLexer(), input);
    assert input[..|input|] == input;
    NoneAccepting(Patterns(), input);
    var m := Yylex(LispLexer(), input).value;
    assert FirstAccepting(StatesAt(LispLexer().patterns, input[..|input|])) == -1;
    assert m.length != |input|;
  }

  /** A null token reads as integer 0, that is WHITESPACE (parse.c:111 with lex.c:203). */
  function TagOf(token: Option<Tag>): (r: Tag)
    ensures token.Some? ==> r == token.value
    ensures token.None? ==> r == Whitespace
  {
    match token
    case None => Whitespace
    case Some(t) => t
  }

  /** Only atoms, identifiers and integers carry their matched text. */
  predicate CarriesText(tag: Tag) {
    tag == AtomTag || tag == IdentifierTag || tag == IntegerTag
  }

  /** What a matched slice looks like for each tag. */
  predicate Spelled(tag: Tag, s: string) {
    match tag
    case Whitespace => |s| > 0 && AllSpace(s)
    case OpenParen => s == "("
    case CloseParen => s == ")"
    case IdentifierTag => |s| > 0 && IsIdentStart(s[0]) && NameCharsFrom(s, 1)
    case AtomTag => |s| > 1 && s[0] == '\'' && NameCharsFrom(s, 1)
    case IntegerTag => |s| > 0 && AllDigits(s)
    case OpenList => s == "'("
  }

  /** The tokens lisp_lex produces: never whitespace, text exactly for the text-carrying tags, and well spelled. */
  predicate LexedToken(t: Token) {
    && t.tag != Whitespace
    && (t.text.Some? <==> CarriesText(t.tag))
    && (t.text.Some? ==> Spelled(t.tag, t.text.value))
  }

  /** A prefix some recogniser accepts is spelled like the first accepting pattern's tag. */
  lemma AcceptedIsSpelled(w: string)
    requires FirstAccepting(StatesAt(Patterns(), w)) >= 0
    ensures Spelled(TagOrder[FirstAccepting(StatesAt(Patterns(), w))], w)
  {
    var st := StatesAt(Patterns(), w);
    var f := FirstAccepting(st);
    assert IsAccepting(Patterns()[f](w));
    if f == 0 {
      assert IsAccepting(WhitespaceState(w));
    } else if f == 1 {
      assert IsAccepting(OpenParenState(w));
    } else if f == 2 {
      assert IsAccepting(CloseParenState(w));
    } else if f == 3 {
      assert IsAccepting(IdentifierState(w));
    } else if f == 4 {
      assert IsAccepting(AtomState(w));
    } else if f == 5 {
      assert IsAccepting(IntegerState(w));
    } else {
      assert IsAccepting(OpenListState(w));
    }
  }

  /**
    Soundness of the Lisp lexer: on any input ending in the terminator,
    lex_yylex finishes before the terminator, and a match that has a tag is
    non-empty and spelled like that tag.
  */
  lemma LispYylexSound(input: string)
    requires |input| > 0 && input[|input| - 1] == '\0'
    ensures var r := Yylex(LispLexer(), input);
            && r.Some? && 0 <= r.value.length < |input|
            && (r.value.token.Some? <==> r.value.length > 0)
            && (r.value.token.Some? ==> Spelled(r.value.token.value, input[..r.value.length]))
  {
    LispYylexFinishes(input);
    var m := Yylex(LispLexer(), input).value;
    if m.token.Some? {
      AcceptedIsSpelled(input[..m.length]);
    }
  }

  /**
    When every pattern rejects the first k characters and no shorter prefix
    is accepted, lex_yylex reports no token and length 0.
  */
  lemma YylexNoMatch(input: string, k: nat)
    requires 0 < k <= |input| && AllReject(Patterns(), input[..k])
    requires forall j :: 0 < j < k ==> FirstAccepting(StatesAt(Patterns(), input[..j])) == -1
    ensures Yylex(LispLexer(), input) == Some(Match(None, 0))
  {
    YylexWithin(input, k);
  }

  /** Once every pattern has rejected a prefix, no longer prefix is accepted. */
  lemma NothingAcceptedFrom(input: string, k: nat)
    requires 0 < k <= |input| && AllReject(Patterns(), input[..k])
    ensures forall j :: k <= j <= |input| ==> FirstAccepting(StatesAt(Patterns(), input[..j])) == -1
  {
    PatternsAbsorbing();
    forall j | k <= j <= |input|
      ensures FirstAccepting(StatesAt(Patterns(), input[..j])) == -1
    {
      forall i | 0 <= i < |Patterns()|
        ensures Patterns()[i](input[..j]) == Rejected
      {
        RejectedStays(Patterns()[i], input[..k], input[k..j]);
        assert input[..k] + input[k..j] == input[..j];
      }
      NoneAccepting(Patterns(), input[..j]);
    }
  }

  /** A character outside every token class is rejected by every pattern. */
  lemma OtherRejected(c: char)
    requires !IsSpace(c) && c != '(' && c != ')' && !IsNameChar(c) && c != '\''
    ensures AllReject(Patterns(), [c])
  {
    assert [c][0] == c;
  }

  /** A quote followed by neither '(' nor a name character is rejected by every pattern. */
  lemma QuoteThenStopRejected(d: char)
    requires d != '(' && !IsNameChar(d)
    ensures AllReject(Patterns(), ['\'', d])
  {
    var w := ['\'', d];
    assert w[0] == '\'' && w[1] == d;
    assert !NameCharsFrom(w, 1);
    assert w != "'(";
  }

  /** A lone quote is accepted by no pattern. */
  lemma NothingAcceptsQuote()
    ensures FirstAccepting(StatesAt(Patterns(), "'")) == -1
  {
    var w := "'";
    assert w[0] == '\'';
    assert !IsSpace(w[0]) && !IsIdentStart(w[0]) && !IsDigit(w[0]);
    assert !AllSpace(w) && !AllDigits(w);
    var st := StatesAt(Patterns(), w);
    assert st[0] == WhitespaceState(w) == Rejected;
    assert st[1] == OpenParenState(w) == Rejected;
    assert st[2] == CloseParenState(w) == Rejected;
    assert st[3] == IdentifierState(w) == Rejected;
    assert st[4] == AtomState(w) == NotAccepting;
    assert st[5] == IntegerState(w) == Rejected;
    assert st[6] == OpenListState(w) == NotAccepting;
  }

  /** The characters that end a match of each tag: no recogniser accepts the slice extended by one of them. */
  predicate Stops(tag: Tag, d: char) {
    match tag
    case Whitespace => !IsSpace(d)
    case IdentifierTag => !IsNameChar(d)
    case AtomTag => !IsNameChar(d)
    case IntegerTag => !IsDigit(d)
    case _ => true
  }

  /** The index of a tag in TagOrder. */
  function Rank(tag: Tag): (r: nat)
    ensures r < |TagOrder| && TagOrder[r] == tag
  {
    match tag
    case Whitespace => 0
    case OpenParen => 1
    case CloseParen => 2
    case IdentifierTag => 3
    case AtomTag => 4
    case IntegerTag => 5
    case OpenList => 6
  }

  /** A well-spelled slice is accepted by its own pattern and by no earlier one. */
  lemma SpelledFirstAccepting(tag: Tag, s: string)
    requires Spelled(tag, s)
    ensures FirstAccepting(StatesAt(Patterns(), s)) == Rank(tag)
  {
    var st := StatesAt(Patterns(), s);
    assert IsAccepting(st[Rank(tag)]);
    forall i | 0 <= i < Rank(tag)
      ensures !IsAccepting(st[i])
    {
      assert st[i] == Patterns()[i](s);
      if tag == OpenList {
        assert s[1] == '(';
      }
      if i == 0 {
        assert !IsSpace(s[0]);
        assert !IsAccepting(WhitespaceState(s));
      } else if i == 1 {
        assert !IsAccepting(OpenParenState(s));
      } else if i == 2 {
        assert !IsAccepting(CloseParenState(s));
      } else if i == 3 {
        assert !IsAccepting(IdentifierState(s));
      } else if i == 4 {
        assert !IsAccepting(AtomState(s));
      } else {
        assert !IsAccepting(IntegerState(s));
      }
    }
    FirstAcceptingIs(st, Rank(tag));
  }

  /** A well-spelled slice followed by a stopping character is rejected by every pattern. */
  lemma SpelledThenStopRejected(tag: Tag, s: string, d: char)
    requires Spelled(tag, s) && Stops(tag, d)
    ensures AllReject(Patterns(), s + [d])
  {
    var w := s + [d];
    assert w[0] == s[0] && w[|s|] == d;
    assert |w| >= 2;
    if tag == OpenList {
      assert w[1] == '(';
    }
  }

  /** When a stopping character follows a well-spelled slice, the match is exactly that slice. */
  lemma YylexSpelledLength(tag: Tag, s: string, d: char, more: string)
    requires Spelled(tag, s) && Stops(tag, d)
    ensures var r := Yylex(LispLexer(), s + [d] + more);
            r.Some? && r.value.length == |s|
  {
    var input := s + [d] + more;
    SpelledThenStopRejected(tag, s, d);
    assert input[..|s| + 1] == s + [d];
    YylexWithin(input, |s| + 1);
    assert input[..|s|] == s;
    SpelledFirstAccepting(tag, s);
    if |s| > 0 {
      YylexAtLeast(input, |s|);
    }
  }

  /** Once every pattern rejects the first k characters, lex_yylex finishes with a match shorter than k. */
  lemma YylexWithin(input: string, k: nat)
    requires 0 < k <= |input| && AllReject(Patterns(), input[..k])
    ensures Yylex(LispLexer(), input).Some? && Yylex(LispLexer(), input).value.length < k
  {
    YylexSomeIff(LispLexer(), input);
    NothingAcceptedFrom(input, k);
  }

  /** A prefix some pattern accepts bounds the match length from below. */
  lemma YylexAtLeast(input: string, j: nat)
    requires 0 < j <= |input| && FirstAccepting(StatesAt(Patterns(), input[..j])) >= 0
    ensures Yylex(LispLexer(), input).Some? ==> Yylex(LispLexer(), input).value.length >= j
  {
    if Yylex(LispLexer(), input).Some? {
      PatternsAbsorbing();
      YylexLongestMatch(LispLexer(), input);
    }
  }

  /** The tokenizer returns exactly a well-spelled slice, with its tag, when a stopping character follows it. */
  lemma YylexSpelled(tag: Tag, s: string, d: char, more: string)
    requires Spelled(tag, s) && Stops(tag, d)
    ensures Yylex(LispLexer(), s + [d] + more) == Some(Match(Some(tag), |s|))
  {
    var input := s + [d] + more;
    YylexSpelledLength(tag, s, d, more);
    assert input[..|s|] == s;
    SpelledFirstAccepting(tag, s);
  }
}
