/** Writing a list of fields as an escaped list and reading it back. */
module EscapedRoundTrip {
  import opened TokenizerTypes
  import opened EscapedList
  import opened TokenIteratorModule

  // The characters a writer uses: one each of the parser's escapes, separators and quotes.
  datatype Writer = Writer(cs: Chars, e: char, sep: char, q: char) {
    ghost predicate Valid() {
      e in cs.escape && sep in cs.c && q in cs.quote
    }
  }

  // A field is written either with every special character escaped, or inside quotes.
  datatype Field = Plain(text: string) | Quoted(text: string)

  function PlainChar(w: Writer, ch: char): string {
    if ch == '\n' then [w.e, 'n']
    else if ch in w.cs.escape || ch in w.cs.c || ch in w.cs.quote then [w.e, ch]
    else [ch]
  }

  // Between quotes only escapes and quotes need escaping.
  function InnerChar(w: Writer, ch: char): string {
    if ch in w.cs.escape || ch in w.cs.quote then [w.e, ch] else [ch]
  }

  function EncodePlain(w: Writer, text: string): string {
    if text == "" then ""
    else PlainChar(w, text[0]) + EncodePlain(w, text[1..])
  }

  function EncodeInner(w: Writer, text: string): string {
    if text == "" then ""
    else InnerChar(w, text[0]) + EncodeInner(w, text[1..])
  }

  function Encode(w: Writer, f: Field): string {
    match f
    case Plain(text) => EncodePlain(w, text)
    case Quoted(text) => [w.q] + EncodeInner(w, text) + [w.q]
  }

  function EncodeList(w: Writer, fields: seq<Field>): string
    requires fields != []
  {
    if |fields| == 1 then Encode(w, fields[0])
    else Encode(w, fields[0]) + [w.sep] + EncodeList(w, fields[1..])
  }

  function Texts(fields: seq<Field>): (r: seq<string>)
    ensures |r| == |fields|
  {
    if fields == [] then [] else [fields[0].text] + Texts(fields[1..])
  }

  ghost predicate NoLetterN(cs: Chars) {
    'n' !in cs.escape && 'n' !in cs.c && 'n' !in cs.quote
  }

  // The condition for plain fields, and the one for plain and quoted fields mixed.
  ghost predicate PlainReadable(w: Writer) {
    w.sep !in w.cs.escape && NoLetterN(w.cs)
  }

  ghost predicate Readable(w: Writer) {
    PlainReadable(w) && w.q !in w.cs.escape && w.q !in w.cs.c
  }

  // The text at position i starts with t.
  ghost predicate At(s: string, i: nat, t: string) {
    i + |t| <= |s| && s[i..i + |t|] == t
  }

  lemma {:induction false} AtSplit(s: string, i: nat, t: string, u: string)
    requires At(s, i, t + u)
    ensures At(s, i, t) && At(s, i + |t|, u)
  {
    assert s[i..i + |t|] == (t + u)[..|t|] == t;
    assert s[i + |t|..i + |t| + |u|] == (t + u)[|t|..] == u;
  }

  lemma {:induction false} AtIndex(s: string, i: nat, t: string, k: nat)
    requires At(s, i, t) && k < |t|
    ensures s[i + k] == t[k]
  {
    assert s[i..i + |t|][k] == t[k];
  }

  lemma {:induction false} TakeFirst(tok: string, text: string)
    requires text != ""
    ensures tok + [text[0]] + text[1..] == tok + text
  {
  }

  lemma {:induction false} ScanPlainChar(w: Writer, ch: char, s: string, i: nat, tok: string)
    requires w.Valid() && NoLetterN(w.cs) && At(s, i, PlainChar(w, ch))
    ensures Scan(w.cs, s, i, false, tok) == Scan(w.cs, s, i + |PlainChar(w, ch)|, false, tok + [ch])
  {
    AtIndex(s, i, PlainChar(w, ch), 0);
    if |PlainChar(w, ch)| == 2 { AtIndex(s, i, PlainChar(w, ch), 1); }
  }

  lemma {:induction false} ScanPlain(w: Writer, text: string, s: string, i: nat, tok: string)
    requires w.Valid() && NoLetterN(w.cs) && At(s, i, EncodePlain(w, text))
    ensures Scan(w.cs, s, i, false, tok) == Scan(w.cs, s, i + |EncodePlain(w, text)|, false, tok + text)
  {
    if text == "" {
      assert tok + text == tok;
    } else {
      var first, rest := PlainChar(w, text[0]), EncodePlain(w, text[1..]);
      var j, mid := i + |first|, tok + [text[0]];
      AtSplit(s, i, first, rest);
      ScanPlainChar(w, text[0], s, i, tok);
      ScanPlain(w, text[1..], s, j, mid);
      TakeFirst(tok, text);
      calc {
        Scan(w.cs, s, i, false, tok);
        Scan(w.cs, s, j, false, mid);
        Scan(w.cs, s, j + |rest|, false, mid + text[1..]);
        Scan(w.cs, s, i + |EncodePlain(w, text)|, false, tok + text);
      }
    }
  }

  lemma {:induction false} ScanInnerChar(w: Writer, ch: char, s: string, i: nat, tok: string)
    requires w.Valid() && NoLetterN(w.cs) && At(s, i, InnerChar(w, ch))
    ensures Scan(w.cs, s, i, true, tok) == Scan(w.cs, s, i + |InnerChar(w, ch)|, true, tok + [ch])
  {
    AtIndex(s, i, InnerChar(w, ch), 0);
    if |InnerChar(w, ch)| == 2 { AtIndex(s, i, InnerChar(w, ch), 1); }
  }

  lemma {:induction false} ScanInner(w: Writer, text: string, s: string, i: nat, tok: string)
    requires w.Valid() && NoLetterN(w.cs) && At(s, i, EncodeInner(w, text))
    ensures Scan(w.cs, s, i, true, tok) == Scan(w.cs, s, i + |EncodeInner(w, text)|, true, tok + text)
  {
    if text == "" {
      assert tok + text == tok;
    } else {
      var first, rest := InnerChar(w, text[0]), EncodeInner(w, text[1..]);
      var j, mid := i + |first|, tok + [text[0]];
      AtSplit(s, i, first, rest);
      ScanInnerChar(w, text[0], s, i, tok);
      ScanInner(w, text[1..], s, j, mid);
      TakeFirst(tok, text);
      calc {
        Scan(w.cs, s, i, true, tok);
        Scan(w.cs, s, j, true, mid);
        Scan(w.cs, s, j + |rest|, true, mid + text[1..]);
        Scan(w.cs, s, i + |EncodeInner(w, text)|, true, tok + text);
      }
    }
  }

  lemma {:induction false} ScanQuoted(w: Writer, text: string, s: string, i: nat)
    requires w.Valid() && NoLetterN(w.cs) && w.q !in w.cs.escape && w.q !in w.cs.c
    requires At(s, i, [w.q] + EncodeInner(w, text) + [w.q])
    ensures Scan(w.cs, s, i, false, "") == Scan(w.cs, s, i + 2 + |EncodeInner(w, text)|, false, text)
  {
    var inner := EncodeInner(w, text);
    var j := i + 1 + |inner|;
    AtSplit(s, i, [w.q] + inner, [w.q]);
    AtSplit(s, i, [w.q], inner);
    AtIndex(s, i, [w.q], 0);
    AtIndex(s, j, [w.q], 0);
    ScanInner(w, text, s, i + 1, "");
    assert "" + text == text;
  }

  // The parser reads a written field as its text and goes on unquoted behind it.
  lemma {:induction false} ScanField(w: Writer, f: Field, s: string, i: nat)
    requires w.Valid() && FieldReadable(w, f) && At(s, i, Encode(w, f))
    ensures Scan(w.cs, s, i, false, "") == Scan(w.cs, s, i + |Encode(w, f)|, false, f.text)
  {
    match f
    case Plain(text) =>
      ScanPlain(w, text, s, i, "");
      assert "" + text == text;
    case Quoted(text) =>
      ScanQuoted(w, text, s, i);
  }

  ghost predicate FieldReadable(w: Writer, f: Field) {
    NoLetterN(w.cs) && (f.Quoted? ==> w.q !in w.cs.escape && w.q !in w.cs.c)
  }

  ghost predicate AllReadable(w: Writer, fields: seq<Field>) {
    fields == [] || (FieldReadable(w, fields[0]) && AllReadable(w, fields[1..]))
  }

  // A field that is the rest of the input.
  lemma {:induction false} LastField(w: Writer, f: Field, s: string, i: nat, last: bool)
    requires w.Valid() && FieldReadable(w, f)
    requires i <= |s| && s[i..] == Encode(w, f)
    requires i < |s| || last
    ensures Call(w.cs, last, s, i) == Token(f.text, |s|, false)
  {
    if i < |s| {
      assert At(s, i, Encode(w, f));
      ScanField(w, f, s, i);
      assert i + |Encode(w, f)| == |s|;
    } else {
      assert Encode(w, f) == "";
      assert f.text == "";
    }
  }

  // A field with a separator and more text behind it.
  lemma {:induction false} FieldThenMore(w: Writer, f: Field, rest: string, s: string, i: nat, last: bool)
    requires w.Valid() && FieldReadable(w, f) && w.sep !in w.cs.escape
    requires i <= |s| && s[i..] == Encode(w, f) + [w.sep] + rest
    ensures var j := i + |Encode(w, f)| + 1;
            Call(w.cs, last, s, i) == Token(f.text, j, true) && j <= |s| && s[j..] == rest
  {
    var enc := Encode(w, f);
    var j := i + |enc|;
    assert s[i..] == enc + ([w.sep] + rest);
    assert At(s, i, enc + ([w.sep] + rest));
    AtSplit(s, i, enc, [w.sep] + rest);
    AtSplit(s, j, [w.sep], rest);
    AtIndex(s, j, [w.sep], 0);
    ScanField(w, f, s, i);
    assert s[j + 1..] == s[j + 1..j + 1 + |rest|];
  }

  lemma {:induction false} EscapedOneMore(cs: Chars, last: bool, s: string, i: nat, tok: string, next: nat, flag: bool)
    requires i <= |s| && Call(cs, last, s, i) == Token(tok, next, flag)
    ensures next <= |s|
    ensures var rest := Tokens(Escaped(cs, flag), s, next);
            Tokens(Escaped(cs, last), s, i) == Run([tok] + rest.tokens, rest.error)
  {
    TokensOneMore(Escaped(cs, last), s, i);
  }

  // From any position where the rest of the input is a written list, the tokens are its texts.
  lemma {:induction false} TokensOfList(w: Writer, fields: seq<Field>, s: string, i: nat, last: bool)
    requires w.Valid() && PlainReadable(w) && fields != []
    requires i <= |s| && s[i..] == EncodeList(w, fields)
    requires AllReadable(w, fields)
    requires i < |s| || last
    ensures Tokens(Escaped(w.cs, last), s, i) == Run(Texts(fields), None)
    decreases |fields|
  {
    var f := fields[0];
    if |fields| == 1 {
      LastField(w, f, s, i, last);
      EscapedOneMore(w.cs, last, s, i, f.text, |s|, false);
      assert Tokens(Escaped(w.cs, false), s, |s|) == Run([], None);
      assert Texts(fields[1..]) == [];
    } else {
      var rest, j := EncodeList(w, fields[1..]), i + |Encode(w, f)| + 1;
      FieldThenMore(w, f, rest, s, i, last);
      EscapedOneMore(w.cs, last, s, i, f.text, j, true);
      TokensOfList(w, fields[1..], s, j, true);
    }
  }

  // Reading back what was written gives the texts.
  ghost predicate RoundTrips(w: Writer, fields: seq<Field>)
    requires fields != []
  {
    Tokenize(Escaped(w.cs, false), EncodeList(w, fields)) == Run(Texts(fields), None)
  }

  // The only list that is written as nothing, and so cannot be told from no fields at all.
  const LONE_EMPTY: seq<Field> := [Plain("")]

  ghost predicate AllPlain(fields: seq<Field>) {
    forall k :: 0 <= k < |fields| ==> fields[k].Plain?
  }

  lemma {:induction false} ReadableFields(w: Writer, fields: seq<Field>)
    requires Readable(w) || (PlainReadable(w) && AllPlain(fields))
    ensures AllReadable(w, fields)
  {
    if fields != [] { ReadableFields(w, fields[1..]); }
  }

  lemma {:induction false} WrittenAsNothing(w: Writer, fields: seq<Field>)
    requires fields != []
    ensures EncodeList(w, fields) == "" <==> fields == LONE_EMPTY
  {
    assert fields == [fields[0]] + fields[1..];
  }

  // Under the condition, a written list is read back unless it is the lone empty plain field.
  lemma {:induction false} ReadableRoundTrips(w: Writer, fields: seq<Field>)
    requires w.Valid() && fields != []
    requires Readable(w) || (PlainReadable(w) && AllPlain(fields))
    ensures RoundTrips(w, fields) <==> fields != LONE_EMPTY
  {
    var s := EncodeList(w, fields);
    WrittenAsNothing(w, fields);
    if s != "" {
      assert s[0..] == s;
      ReadableFields(w, fields);
      TokensOfList(w, fields, s, 0, false);
    } else {
      LoneEmptyIsLost(w);
    }
  }

  // No parser gives it back.
  lemma {:induction false} LoneEmptyIsLost(w: Writer)
    ensures !RoundTrips(w, LONE_EMPTY)
  {
    WrittenAsNothing(w, LONE_EMPTY);
    assert |Texts(LONE_EMPTY)| == 1;
  }

  // A letter among the special characters: a plain 'n' comes back as a newline.
  lemma {:induction false} SpecialNIsLost(w: Writer)
    requires w.Valid() && !NoLetterN(w.cs)
    ensures !RoundTrips(w, [Plain("n")])
  {
    var s := [w.e, 'n'];
    assert "n"[1..] == "";
    assert EncodePlain(w, "n") == s;
    assert EncodeList(w, [Plain("n")]) == s;
    assert Scan(w.cs, s, 0, false, "") == Scan(w.cs, s, 2, false, "\n");
    assert Tokenize(Escaped(w.cs, false), s).tokens[0] == "\n";
    assert Texts([Plain("n")])[0] == "n";
  }

  // A separator that is also an escape: two empty fields cannot be told from a lone escape.
  lemma {:induction false} EscapingSeparatorFails(w: Writer)
    requires w.Valid() && w.sep in w.cs.escape
    ensures !RoundTrips(w, [Plain(""), Plain("")])
  {
    var fields := [Plain(""), Plain("")];
    assert fields[1..] == [Plain("")];
    assert EncodeList(w, fields) == [w.sep];
    assert Scan(w.cs, [w.sep], 0, false, "") == Thrown(CannotEndWithEscape);
  }

  // A quote that is also an escape or a separator: an empty quoted field does not come back empty.
  lemma {:induction false} ConfusedQuoteFails(w: Writer)
    requires w.Valid() && (w.q in w.cs.escape || w.q in w.cs.c)
    ensures !RoundTrips(w, [Quoted("")])
  {
    var fields := [Quoted("")];
    var s := [w.q, w.q];
    assert EncodeList(w, fields) == s;
    assert Texts(fields) == [""];
    if w.q in w.cs.escape {
      var ch := if w.q == 'n' then '\n' else w.q;
      assert Scan(w.cs, s, 0, false, "") == Scan(w.cs, s, 2, false, [ch]);
      assert Tokens(Escaped(w.cs, false), s, 0).tokens[0] == [ch];
    } else {
      assert Call(w.cs, false, s, 0) == Token("", 1, true);
      assert Call(w.cs, true, s, 1) == Token("", 2, true);
      assert |Tokens(Escaped(w.cs, true), s, 1).tokens| >= 1;
      assert |Tokens(Escaped(w.cs, false), s, 0).tokens| >= 2;
    }
  }

  // The exact conditions for every other list to be read back.
  lemma {:induction false} PlainRoundTripIff(w: Writer)
    requires w.Valid()
    ensures (forall fields: seq<Field> ::
               fields != [] && fields != LONE_EMPTY && AllPlain(fields) ==> RoundTrips(w, fields))
       <==> PlainReadable(w)
  {
    if PlainReadable(w) {
      forall fields: seq<Field> | fields != [] && fields != LONE_EMPTY && AllPlain(fields)
        ensures RoundTrips(w, fields)
      {
        ReadableRoundTrips(w, fields);
      }
    } else if !NoLetterN(w.cs) {
      SpecialNIsLost(w);
      assert AllPlain([Plain("n")]);
    } else {
      EscapingSeparatorFails(w);
      assert AllPlain([Plain(""), Plain("")]);
    }
  }

  lemma {:induction false} RoundTripIff(w: Writer)
    requires w.Valid()
    ensures (forall fields: seq<Field> :: fields != [] && fields != LONE_EMPTY ==> RoundTrips(w, fields))
       <==> Readable(w)
  {
    if Readable(w) {
      forall fields: seq<Field> | fields != [] && fields != LONE_EMPTY ensures RoundTrips(w, fields) {
        ReadableRoundTrips(w, fields);
      }
    } else if !NoLetterN(w.cs) {
      SpecialNIsLost(w);
      assert Plain("n") != Plain("");
    } else if w.sep in w.cs.escape {
      EscapingSeparatorFails(w);
    } else {
      ConfusedQuoteFails(w);
    }
  }

  // For the usual parser with one character of each kind: the three are distinct and none is 'n'.
  lemma {:induction false} SingleCharacters(e: char, sep: char, q: char)
    ensures Readable(Writer(Chars([e], [sep], [q]), e, sep, q))
       <==> e != sep && e != q && sep != q && e != 'n' && sep != 'n' && q != 'n'
  {
  }
}
