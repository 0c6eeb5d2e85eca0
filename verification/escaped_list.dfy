/** What a call of a tokenizer function can come to. */
module TokenizerTypes {
  datatype Option<+T> = None | Some(value: T)

  datatype EscapedListError = CannotEndWithEscape | UnknownEscapeSequence

  // A token with the position after it and the function's flag; no more tokens; or an exception.
  datatype CallResult =
    | Token(tok: string, next: nat, flag: bool)
    | Finished
    | Thrown(error: EscapedListError)
}

/** The parser of escaped lists: fields, separators, quotes and escapes. */
module EscapedList {
  import opened TokenizerTypes

  datatype Chars = Chars(escape: string, c: string, quote: string)

  // What an escape followed by ch stands for.
  function Unescape(cs: Chars, ch: char): Option<char> {
    if ch == 'n' then Some('\n')
    else if ch in cs.quote || ch in cs.c || ch in cs.escape then Some(ch)
    else None
  }

  // The rest of a field from position i on, given what has been collected so far.
  function Scan(cs: Chars, s: string, i: nat, inQuote: bool, tok: string): (r: CallResult)
    requires i <= |s|
    ensures !r.Finished? && (r.Token? ==> i <= r.next <= |s|)
    ensures r.Token? && i < |s| ==> i < r.next
    decreases |s| - i
  {
    if i == |s| then Token(tok, i, false)
    else if s[i] in cs.escape then
      if i + 1 == |s| then Thrown(CannotEndWithEscape)
      else
        match Unescape(cs, s[i + 1])
        case None => Thrown(UnknownEscapeSequence)
        case Some(ch) => Scan(cs, s, i + 2, inQuote, tok + [ch])
    else if s[i] in cs.c then
      if !inQuote then Token(tok, i + 1, true)
      else Scan(cs, s, i + 1, inQuote, tok + [s[i]])
    else if s[i] in cs.quote then Scan(cs, s, i + 1, !inQuote, tok)
    else Scan(cs, s, i + 1, inQuote, tok + [s[i]])
  }

  // One call at position i; `last` says that the text before i ended with a separator.
  function Call(cs: Chars, last: bool, s: string, i: nat): (r: CallResult)
    requires i <= |s|
    ensures r.Token? ==> i <= r.next <= |s|
    ensures r.Token? ==> 2 * (|s| - r.next) + (if r.flag then 1 else 0) < 2 * (|s| - i) + (if last then 1 else 0)
  {
    if i == |s| then
      if last then Token("", i, false) else Finished
    else Scan(cs, s, i, false, "")
  }

  class EscapedListSeparator {
    const escapes: string
    const separators: string
    const quotes: string
    var last: bool

    constructor (e: char, c: char, q: char)
      ensures escapes == [e] && separators == [c] && quotes == [q] && !last
    {
      escapes, separators, quotes, last := [e], [c], [q], false;
    }

    constructor FromStrings(e: string, c: string, q: string)
      ensures escapes == e && separators == c && quotes == q && !last
    {
      escapes, separators, quotes, last := e, c, q, false;
    }

    constructor Copy(f: EscapedListSeparator)
      ensures escapes == f.escapes && separators == f.separators && quotes == f.quotes && last == f.last
    {
      escapes, separators, quotes, last := f.escapes, f.separators, f.quotes, f.last;
    }

    function TheChars(): Chars {
      Chars(escapes, separators, quotes)
    }

    method Reset()
      modifies this`last
      ensures !last
    {
      last := false;
    }

    // Moves past an escape and appends what it stands for.
    method DoEscape(s: string, next: nat, tok: string) returns (next': nat, r: CallResult)
      requires next < |s|
      ensures next' == next + 1
      ensures next' == |s| ==> r == Thrown(CannotEndWithEscape)
      ensures next' < |s| ==> r == match Unescape(TheChars(), s[next'])
                                   case None => Thrown(UnknownEscapeSequence)
                                   case Some(ch) => Token(tok + [ch], next', false)
      ensures next' < |s| && s[next'] == 'n' ==> r == Token(tok + ['\n'], next', false)
      ensures next' < |s| && s[next'] != 'n' ==>
                r == if s[next'] in escapes || s[next'] in separators || s[next'] in quotes
                then Token(tok + [s[next']], next', false) else Thrown(UnknownEscapeSequence)
    {
      next' := next + 1;
      if next' == |s| {
        r := Thrown(CannotEndWithEscape);
      } else if s[next'] == 'n' {
        r := Token(tok + ['\n'], next', false);
      } else if s[next'] in quotes {
        r := Token(tok + [s[next']], next', false);
      } else if s[next'] in separators {
        r := Token(tok + [s[next']], next', false);
      } else if s[next'] in escapes {
        r := Token(tok + [s[next']], next', false);
      } else {
        r := Thrown(UnknownEscapeSequence);
      }
    }

    // The function call operator, at position next0 of the input.
    method Apply(s: string, next0: nat) returns (r: CallResult)
      requires next0 <= |s|
      modifies this`last
      ensures r == Call(TheChars(), old(last), s, next0)
      ensures r.Token? ==> last == r.flag
      ensures !r.Token? ==> !last
    {
      var next, tok, inQuote := next0, "", false;
      if next == |s| {
        if last {
          last := false;
          return Token(tok, next, false);
        } else {
          return Finished;
        }
      }
      last := false;
      while next != |s|
        invariant next0 <= next <= |s| && !last
        invariant Scan(TheChars(), s, next, inQuote, tok) == Scan(TheChars(), s, next0, false, "")
        decreases |s| - next
      {
        if s[next] in escapes {
          var escaped;
          next, escaped := DoEscape(s, next, tok);
          if escaped.Thrown? { return escaped; }
          tok := escaped.tok;
        } else if s[next] in separators {
          if !inQuote {
            next := next + 1;
            last := true;
            return Token(tok, next, true);
          } else {
            tok := tok + [s[next]];
          }
        } else if s[next] in quotes {
          inQuote := !inQuote;
        } else {
          tok := tok + [s[next]];
        }
        next := next + 1;
      }
      r := Token(tok, next, false);
    }
  }
}
