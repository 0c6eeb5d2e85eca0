/** What a call of the escaped-list parser returns, said position by position for any input. */
module EscapedTokens {
  import opened TokenizerTypes
  import opened EscapedList

  // In a call that starts at i, position k holds an escape that is not itself escaped.
  predicate Escapes(cs: Chars, s: string, i: nat, k: nat)
    requires i <= k
    decreases k
  {
    k < |s| && s[k] in cs.escape && !(i < k && Escapes(cs, s, i, k - 1))
  }

  predicate IsEscaped(cs: Chars, s: string, i: nat, k: nat)
    requires i <= k
  {
    i < k && Escapes(cs, s, i, k - 1)
  }

  // A quote that switches quoting on or off; a character that is also a separator does not.
  predicate IsQuote(cs: Chars, s: string, i: nat, k: nat)
    requires i <= k < |s|
  {
    !Escapes(cs, s, i, k) && !IsEscaped(cs, s, i, k) && s[k] in cs.quote && s[k] !in cs.c
  }

  function NumQuotes(cs: Chars, s: string, i: nat, k: nat): nat
    requires i <= k <= |s|
    decreases k
  {
    if i == k then 0 else NumQuotes(cs, s, i, k - 1) + if IsQuote(cs, s, i, k - 1) then 1 else 0
  }

  // A separator outside quotes.
  predicate EndsField(cs: Chars, s: string, i: nat, k: nat)
    requires i <= k < |s|
  {
    && !Escapes(cs, s, i, k) && !IsEscaped(cs, s, i, k) && s[k] in cs.c
    && NumQuotes(cs, s, i, k) % 2 == 0
  }

  // An escape with nothing behind it, or with a character behind it that it cannot stand before.
  function Fault(cs: Chars, s: string, i: nat, k: nat): Option<EscapedListError>
    requires i <= k < |s|
  {
    if !Escapes(cs, s, i, k) then None
    else if k + 1 == |s| then Some(CannotEndWithEscape)
    else if s[k + 1] == 'n' || s[k + 1] in cs.quote || s[k + 1] in cs.c || s[k + 1] in cs.escape then None
    else Some(UnknownEscapeSequence)
  }

  // What position k adds to the token.
  function Adds(cs: Chars, s: string, i: nat, k: nat): string
    requires i <= k < |s|
  {
    if Escapes(cs, s, i, k) || IsQuote(cs, s, i, k) then ""
    else if IsEscaped(cs, s, i, k) && s[k] == 'n' then "\n"
    else [s[k]]
  }

  function TextUpTo(cs: Chars, s: string, i: nat, k: nat): string
    requires i <= k <= |s|
    decreases k
  {
    if i == k then "" else TextUpTo(cs, s, i, k - 1) + Adds(cs, s, i, k - 1)
  }

  ghost predicate Undecided(cs: Chars, s: string, i: nat, k: nat)
    requires i <= k <= |s|
  {
    forall j :: i <= j < k ==> !EndsField(cs, s, i, j) && Fault(cs, s, i, j) == None
  }

  // As long as nothing has ended the field, the parser has read what the positions add.
  lemma {:induction false} ScanTo(cs: Chars, s: string, i: nat, k: nat)
    requires i <= k <= |s| && !IsEscaped(cs, s, i, k) && Undecided(cs, s, i, k)
    ensures Scan(cs, s, i, false, "")
         == Scan(cs, s, k, NumQuotes(cs, s, i, k) % 2 == 1, TextUpTo(cs, s, i, k))
    decreases k
  {
    if i < k {
      if IsEscaped(cs, s, i, k - 1) {
        ScanTo(cs, s, i, k - 2);
        EscapedPair(cs, s, i, k - 2);
      } else {
        ScanTo(cs, s, i, k - 1);
        BareCharacter(cs, s, i, k - 1);
      }
    }
  }

  lemma {:induction false} EscapedPair(cs: Chars, s: string, i: nat, k: nat)
    requires i <= k < |s| && Escapes(cs, s, i, k) && Fault(cs, s, i, k) == None
    ensures k + 1 < |s|
    ensures NumQuotes(cs, s, i, k + 2) == NumQuotes(cs, s, i, k)
    ensures forall inQuote: bool ::
              Scan(cs, s, k, inQuote, TextUpTo(cs, s, i, k)) == Scan(cs, s, k + 2, inQuote, TextUpTo(cs, s, i, k + 2))
  {
    var ch := if s[k + 1] == 'n' then '\n' else s[k + 1];
    assert Adds(cs, s, i, k) == "" && Adds(cs, s, i, k + 1) == [ch];
    assert TextUpTo(cs, s, i, k + 1) == TextUpTo(cs, s, i, k);
    assert Unescape(cs, s[k + 1]) == Some(ch);
  }

  lemma {:induction false} BareCharacter(cs: Chars, s: string, i: nat, k: nat)
    requires i <= k < |s| && !Escapes(cs, s, i, k) && !IsEscaped(cs, s, i, k) && !EndsField(cs, s, i, k)
    ensures Scan(cs, s, k, NumQuotes(cs, s, i, k) % 2 == 1, TextUpTo(cs, s, i, k))
         == Scan(cs, s, k + 1, NumQuotes(cs, s, i, k + 1) % 2 == 1, TextUpTo(cs, s, i, k + 1))
  {
    var tok := TextUpTo(cs, s, i, k);
    assert tok + "" == tok;
  }

  // The first position that ends the field or holds a bad escape decides the call; if there is none,
  // the field goes on to the end of the input, quoted or not.
  lemma {:induction false} CallDecided(cs: Chars, last: bool, s: string, i: nat) returns (e: nat)
    requires i < |s|
    ensures i <= e <= |s| && Undecided(cs, s, i, e)
    ensures e < |s| ==> EndsField(cs, s, i, e) || Fault(cs, s, i, e) != None
    ensures Call(cs, last, s, i) ==
            if e == |s| then Token(TextUpTo(cs, s, i, e), e, false)
            else if EndsField(cs, s, i, e) then Token(TextUpTo(cs, s, i, e), e + 1, true)
            else Thrown(Fault(cs, s, i, e).value)
  {
    e := i;
    while e < |s| && !EndsField(cs, s, i, e) && Fault(cs, s, i, e) == None
      invariant i <= e <= |s| && Undecided(cs, s, i, e)
    {
      e := e + 1;
    }
    assert i < e ==> Fault(cs, s, i, e - 1) == None;
    ScanTo(cs, s, i, e);
  }

  // ----- without escapes

  predicate PlainQuote(cs: Chars, ch: char) {
    ch in cs.quote && ch !in cs.c
  }

  function QuoteCount(cs: Chars, t: string): nat {
    if t == "" then 0 else QuoteCount(cs, t[..|t| - 1]) + if PlainQuote(cs, t[|t| - 1]) then 1 else 0
  }

  function WithoutQuotes(cs: Chars, t: string): string {
    if t == "" then ""
    else WithoutQuotes(cs, t[..|t| - 1]) + if PlainQuote(cs, t[|t| - 1]) then "" else [t[|t| - 1]]
  }

  lemma {:induction false} CountsOfText(cs: Chars, s: string, i: nat, k: nat)
    requires i <= k <= |s| && forall j :: i <= j < k ==> s[j] !in cs.escape
    ensures NumQuotes(cs, s, i, k) == QuoteCount(cs, s[i..k])
    ensures TextUpTo(cs, s, i, k) == WithoutQuotes(cs, s[i..k])
    decreases k
  {
    if i < k {
      CountsOfText(cs, s, i, k - 1);
      assert s[i..k][..k - 1 - i] == s[i..k - 1];
    }
  }

  // In a text without escapes the token reaches to the first separator with an even number of quotes
  // before it, or to the end, and is that stretch with all quotes taken out.
  lemma {:induction false} UnescapedToken(cs: Chars, last: bool, s: string, i: nat) returns (e: nat)
    requires i < |s| && forall j :: i <= j < |s| ==> s[j] !in cs.escape
    ensures i <= e <= |s|
    ensures forall j :: i <= j < e && s[j] in cs.c ==> QuoteCount(cs, s[i..j]) % 2 == 1
    ensures e < |s| ==> s[e] in cs.c && QuoteCount(cs, s[i..e]) % 2 == 0
    ensures Call(cs, last, s, i) ==
            Token(WithoutQuotes(cs, s[i..e]), if e < |s| then e + 1 else e, e < |s|)
  {
    e := CallDecided(cs, last, s, i);
    forall j | i <= j <= e ensures NumQuotes(cs, s, i, j) == QuoteCount(cs, s[i..j]) {
      CountsOfText(cs, s, i, j);
    }
    CountsOfText(cs, s, i, e);
    forall j | i <= j < e && s[j] in cs.c ensures QuoteCount(cs, s[i..j]) % 2 == 1 {
      assert !EndsField(cs, s, i, j);
    }
  }
}
