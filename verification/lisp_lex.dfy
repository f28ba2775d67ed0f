/**
  lisp_lex (src/parse.c:100-131): the loop that tokenizes a whole string with
  the Lisp tokenizer, dropping whitespace and copying the text of atoms,
  identifiers and integers. Each lex_yylex call is computed by Munch, a
  direct maximal-munch scan over the character classes; MunchIsYylex proves
  that it returns what the tokenizer returns on the rest of the string.
*/
module LispLex {
  import opened Wrappers
  import opened Tokenizer
  import opened Faults
  import opened LispTokens

  /** The character classes a token can run over. */
  datatype CharClass = SpaceClass | NameClass | DigitClass

  predicate InClass(cl: CharClass, c: char) {
    match cl
    case SpaceClass => IsSpace(c)
    case NameClass => IsNameChar(c)
    case DigitClass => IsDigit(c)
  }

  /** The length of the longest run of class characters starting at i. */
  function ClassRun(text: string, i: nat, cl: CharClass): (n: nat)
    requires i <= |text|
    decreases |text| - i
    ensures i + n <= |text|
    ensures forall k :: i <= k < i + n ==> InClass(cl, text[k])
    ensures i + n == |text| || !InClass(cl, text[i + n])
  {
    if i < |text| && InClass(cl, text[i]) then 1 + ClassRun(text, i + 1, cl) else 0
  }

  /** The character at i, or the terminator past the end of the string. */
  function NextChar(text: string, i: nat): char {
    if i < |text| then text[i] else '\0'
  }

  /**
    The longest match at offset pos, decided by the first character: a run
    of whitespace, a parenthesis, an identifier, an integer, '( or an atom.
    A quote followed by neither '(' nor a name character, and any character
    outside every class, match nothing.
  */
  function Munch(text: string, pos: nat): (m: Match<Tag>)
    requires pos < |text| && '\0' !in text
    ensures 0 <= m.length <= |text| - pos
    ensures m.token.Some? <==> m.length > 0
    ensures m.token.Some? ==> Spelled(m.token.value, text[pos..pos + m.length])
    ensures m.token.Some? ==> Stops(m.token.value, NextChar(text, pos + m.length))
  {
    var c := text[pos];
    if IsSpace(c) then
      var n := ClassRun(text, pos, SpaceClass);
      RunSlice(text, pos, n, SpaceClass);
      Match(Some(Whitespace), n)
    else if c == '(' then
      assert text[pos..pos + 1] == "(";
      Match(Some(OpenParen), 1)
    else if c == ')' then
      assert text[pos..pos + 1] == ")";
      Match(Some(CloseParen), 1)
    else if IsIdentStart(c) then
      var n := ClassRun(text, pos, NameClass);
      RunSlice(text, pos, n, NameClass);
      Match(Some(IdentifierTag), n)
    else if IsDigit(c) then
      var n := ClassRun(text, pos, DigitClass);
      RunSlice(text, pos, n, DigitClass);
      Match(Some(IntegerTag), n)
    else if c == '\'' && pos + 1 < |text| && text[pos + 1] == '(' then
      assert text[pos..pos + 2] == "'(";
      Match(Some(OpenList), 2)
    else if c == '\'' && pos + 1 < |text| && IsNameChar(text[pos + 1]) then
      var n := ClassRun(text, pos + 1, NameClass);
      AtomSlice(text, pos, n);
      Match(Some(AtomTag), 1 + n)
    else
      Match(None, 0)
  }

  /** A run of class characters, seen as a slice. */
  lemma RunSlice(text: string, i: nat, n: nat, cl: CharClass)
    requires i + n <= |text| && forall k :: i <= k < i + n ==> InClass(cl, text[k])
    ensures cl == SpaceClass ==> AllSpace(text[i..i + n])
    ensures cl == DigitClass ==> AllDigits(text[i..i + n])
    ensures cl == NameClass ==> NameCharsFrom(text[i..i + n], 0)
  {
    var s := text[i..i + n];
    assert forall k :: 0 <= k < n ==> s[k] == text[i + k];
  }

  /** A quote followed by a run of name characters, seen as a slice. */
  lemma AtomSlice(text: string, pos: nat, n: nat)
    requires pos + 1 + n <= |text| && text[pos] == '\''
    requires forall k :: pos + 1 <= k < pos + 1 + n ==> IsNameChar(text[k])
    ensures NameCharsFrom(text[pos..pos + 1 + n], 1) && text[pos..pos + 1 + n][0] == '\''
  {
    var s := text[pos..pos + 1 + n];
    assert forall k :: 1 <= k < n + 1 ==> s[k] == text[pos + k];
  }

  /** Munch returns exactly what lex_yylex returns on the rest of the string and its terminator. */
  lemma MunchIsYylex(text: string, pos: nat)
    requires pos < |text| && '\0' !in text
    ensures Yylex(LispLexer(), text[pos..] + ['\0']) == Some(Munch(text, pos))
  {
    if Munch(text, pos).token.Some? {
      MunchMatchIsYylex(text, pos);
    } else {
      MunchNothingIsYylex(text, pos);
    }
  }

  /** A match: the tokenizer stops at the character after the slice. */
  lemma MunchMatchIsYylex(text: string, pos: nat)
    requires pos < |text| && '\0' !in text && Munch(text, pos).token.Some?
    ensures Yylex(LispLexer(), text[pos..] + ['\0']) == Some(Munch(text, pos))
  {
    var m := Munch(text, pos);
    var n := m.length;
    var s := text[pos..pos + n];
    var d := NextChar(text, pos + n);
    var more := if pos + n < |text| then text[pos + n + 1..] + ['\0'] else [];
    assert text[pos..] + ['\0'] == s + [d] + more;
    YylexSpelled(m.token.value, s, d, more);
  }

  /** No match: every pattern has rejected after one character, or after a quote and one more. */
  lemma MunchNothingIsYylex(text: string, pos: nat)
    requires pos < |text| && '\0' !in text && Munch(text, pos).token.None?
    ensures Yylex(LispLexer(), text[pos..] + ['\0']) == Some(Munch(text, pos))
  {
    assert Munch(text, pos) == Match(None, 0);
    var input := text[pos..] + ['\0'];
    var c := text[pos];
    assert input[..1] == [c];
    if c == '\'' {
      var d := NextChar(text, pos + 1);
      assert input[..2] == [c, d];
      QuoteThenStopRejected(d);
      NothingAcceptsQuote();
      YylexNoMatch(input, 2);
    } else {
      OtherRejected(c);
      YylexNoMatch(input, 1);
    }
  }

  /**
    lisp_lex from offset pos: run the tokenizer on the rest of the string,
    skip whitespace matches, copy the matched text for atoms, identifiers and
    integers, and advance by the match length. No match at all reads as a
    whitespace match of length 0, after which the source loops forever.
  */
  function LexFrom(text: string, pos: nat): (r: Result<seq<Token>, Fault>)
    requires pos <= |text| && '\0' !in text
    decreases |text| - pos
    ensures r.Ok? ==> forall k :: 0 <= k < |r.value| ==> LexedToken(r.value[k])
    ensures r.Err? ==> r.error.Stuck?
  {
    if pos == |text| then Ok([])
    else
      var m := Munch(text, pos);
      var tag := TagOf(m.token);
      if tag == Whitespace then
        if m.length == 0 then Err(Stuck(pos))
        else LexFrom(text, pos + m.length)
      else
        Prepend(TokenAt(text, pos, tag, m.length), LexFrom(text, pos + m.length))
  }

  /** Put a token in front of a successful result; an error passes through. */
  function Prepend(t: Token, r: Result<seq<Token>, Fault>): (r': Result<seq<Token>, Fault>)
    requires LexedToken(t)
    requires r.Ok? ==> forall k :: 0 <= k < |r.value| ==> LexedToken(r.value[k])
    ensures r'.Ok? <==> r.Ok?
    ensures r'.Ok? ==> r'.value == [t] + r.value
    ensures r'.Ok? ==> forall k :: 0 <= k < |r'.value| ==> LexedToken(r'.value[k])
    ensures r'.Err? ==> r' == r
  {
    match r
    case Ok(ts) => Ok([t] + ts)
    case Err(e) => Err(e)
  }

  /** The token for a match of a non-whitespace tag: the matched text is copied for atoms, identifiers and integers. */
  function TokenAt(text: string, pos: nat, tag: Tag, n: nat): (t: Token)
    requires pos + n <= |text| && tag != Whitespace && Spelled(tag, text[pos..pos + n])
    ensures LexedToken(t) && t.tag == tag
    ensures t.text.Some? ==> t.text.value == text[pos..pos + n]
  {
    Token(tag, if CarriesText(tag) then Some(text[pos..pos + n]) else None)
  }

  /** lisp_lex: tokenize a whole string (which, being a C string, holds no terminator). */
  function Lex(text: string): (r: Result<seq<Token>, Fault>)
    requires '\0' !in text
    ensures r.Ok? ==> forall k :: 0 <= k < |r.value| ==> LexedToken(r.value[k])
  {
    LexFrom(text, 0)
  }
}
