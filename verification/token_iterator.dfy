/** The iterator that drives a tokenizer function over an input, and the token sequence it visits. */
module TokenIteratorModule {
  import opened TokenizerTypes
  import EscapedList
  import CharSeparatorModule

  // The value of a tokenizer function object.
  datatype FuncState =
    | Escaped(chars: EscapedList.Chars, last: bool)
    | Split(delims: CharSeparatorModule.Delims, done: bool)
  {
    function Call(s: string, i: nat): (r: CallResult)
      requires i <= |s|
      ensures r.Token? ==> i <= r.next <= |s| && After(r).Measure(s, r.next) < Measure(s, i)
    {
      match this
      case Escaped(chars, last) => EscapedList.Call(chars, last, s, i)
      case Split(delims, done) => CharSeparatorModule.Call(delims, done, s, i)
    }

    function After(r: CallResult): FuncState
      requires r.Token?
    {
      match this
      case Escaped(chars, _) => Escaped(chars, r.flag)
      case Split(delims, _) => Split(delims, r.flag)
    }

    // The remaining input counts twice, a token still owed without input once.
    function Measure(s: string, i: nat): nat
      requires i <= |s|
    {
      2 * (|s| - i) + (if (Escaped? && last) || (Split? && !done) then 1 else 0)
    }

    function Reset(): FuncState {
      if Escaped? then Escaped(chars, false) else this
    }
  }

  // The tokens that come out, up to the end or to an exception.
  datatype Run = Run(tokens: seq<string>, error: Option<EscapedListError>)

  function Tokens(f: FuncState, s: string, i: nat): (r: Run)
    requires i <= |s|
    ensures |r.tokens| <= f.Measure(s, i)
    decreases f.Measure(s, i)
  {
    match f.Call(s, i)
    case Finished => Run([], None)
    case Thrown(e) => Run([], Some(e))
    case Token(tok, next, flag) =>
      var rest := Tokens(f.After(f.Call(s, i)), s, next);
      Run([tok] + rest.tokens, rest.error)
  }

  // A whole iteration; an empty input is not handed to the function at all.
  function Tokenize(f: FuncState, s: string): Run {
    if s == "" then Run([], None) else Tokens(f.Reset(), s, 0)
  }

  lemma {:induction false} TokensOneMore(f: FuncState, s: string, i: nat)
    requires i <= |s| && f.Call(s, i).Token?
    ensures var r := f.Call(s, i);
            var rest := Tokens(f.After(r), s, r.next);
            Tokens(f, s, i) == Run([r.tok] + rest.tokens, rest.error)
  {
  }

  // An escaped list of n > 0 characters has at most n + 1 fields: only the last may take no input.
  lemma {:induction false} EscapedTokenCount(cs: EscapedList.Chars, last: bool, s: string, i: nat)
    requires i <= |s|
    ensures |Tokens(Escaped(cs, last), s, i).tokens| <= if i < |s| then |s| - i + 1 else if last then 1 else 0
    decreases Escaped(cs, last).Measure(s, i)
  {
    var r := EscapedList.Call(cs, last, s, i);
    if r.Token? {
      EscapedTokenCount(cs, r.flag, s, r.next);
    }
  }

  lemma {:induction false} TokenCounts(f: FuncState, s: string)
    ensures f.Escaped? ==> |Tokenize(f, s).tokens| <= |s| + 1
    ensures f.Split? && !f.done ==> |Tokenize(f, s).tokens| <= 2 * |s| + 1
  {
    if f.Escaped? { EscapedTokenCount(f.chars, false, s, 0); }
  }

  datatype TokenizerFunc =
    | EscapedFunc(e: EscapedList.EscapedListSeparator)
    | SplitFunc(c: CharSeparatorModule.CharSeparator)
  {
    ghost function Object(): object {
      if EscapedFunc? then e else c
    }

    ghost function State(): FuncState
      reads Object()
    {
      match this
      case EscapedFunc(e) => Escaped(e.TheChars(), e.last)
      case SplitFunc(c) => Split(c.delims, c.outputDone)
    }

    method Apply(s: string, next: nat, tok: string) returns (r: CallResult)
      requires next <= |s|
      modifies Object()
      ensures r == old(State()).Call(s, next)
      ensures r.Token? ==> State() == old(State()).After(r)
    {
      match this
      case EscapedFunc(e) => r := e.Apply(s, next);
      case SplitFunc(c) => r := c.Apply(s, next, tok, false);
    }

    method Reset()
      modifies Object()
      ensures State() == old(State()).Reset()
    {
      match this
      case EscapedFunc(e) => e.Reset();
      case SplitFunc(c) => c.Reset();
    }

    method Copy() returns (f: TokenizerFunc)
      ensures fresh(f.Object()) && f.State() == State()
    {
      if EscapedFunc? {
        var e' := new EscapedList.EscapedListSeparator.Copy(e);
        f := EscapedFunc(e');
      } else {
        var c' := new CharSeparatorModule.CharSeparator.Copy(c);
        f := SplitFunc(c');
      }
    }
  }

  class TokenIterator {
    const input: string
    const func: TokenizerFunc  // the iterator's own copy
    var position: nat
    var hasToken: bool
    var token: string

    ghost predicate Valid()
      reads this
    {
      position <= |input| && func.Object() != this
    }

    // What the iterator stands on and will still visit.
    ghost function Rest(): Run
      requires Valid()
      reads this, func.Object()
    {
      if !hasToken then Run([], None)
      else var rest := Tokens(func.State(), input, position); Run([token] + rest.tokens, rest.error)
    }

    constructor (f: TokenizerFunc, s: string)
      ensures Valid() && fresh(func.Object()) && func.State() == f.State()
      ensures input == s && position == 0 && !hasToken
    {
      var own := f.Copy();
      input, func, position, hasToken, token := s, own, 0, false, "";
    }

    // One call of the function; an exception leaves the iterator as it was.
    method Advance() returns (error: Option<EscapedListError>)
      requires Valid()
      modifies this, func.Object()
      ensures Valid()
      ensures var run := old(Tokens(func.State(), input, position));
              if error.None? then Rest() == run
              else run == Run([], error) && hasToken == old(hasToken) && token == old(token)
    {
      var r := func.Apply(input, position, token);
      match r {
        case Token(tok, next, _) =>
          token, position, hasToken := tok, next, true;
          error := None;
        case Finished =>
          position, hasToken := |input|, false;
          error := None;
        case Thrown(e) =>
          error := Some(e);
      }
    }

    // The C++ constructor calls this.
    method Initialize() returns (error: Option<EscapedListError>)
      requires Valid() && position == 0 && !hasToken
      modifies this, func.Object()
      ensures Valid()
      ensures var run := old(Tokenize(func.State(), input));
              if error.None? then Rest() == run else run == Run([], error)
      ensures input == "" ==> error == None && !hasToken
    {
      if hasToken { return None; }
      func.Reset();
      if position != |input| {
        error := Advance();
      } else {
        hasToken := false;
        error := None;
      }
    }

    method Increment() returns (error: Option<EscapedListError>)
      requires Valid() && hasToken
      modifies this, func.Object()
      ensures Valid()
      ensures if error.None? then Run([old(token)] + Rest().tokens, Rest().error) == old(Rest())
              else old(Rest()) == Run([old(token)], error)
    {
      error := Advance();
    }

    function AtEnd(): bool
      reads this
    {
      !hasToken
    }
  }

  lemma {:induction false} MoveFirst(visited: seq<string>, tok: string, rest: seq<string>)
    ensures visited + ([tok] + rest) == (visited + [tok]) + rest
  {
  }

  // Visiting every token from begin to end, as a range over a tokenizer does.
  method CollectAll(f: TokenizerFunc, s: string) returns (run: Run)
    ensures run == Tokenize(f.State(), s)
    ensures s == "" ==> run == Run([], None)
  {
    var it := new TokenIterator(f, s);
    var error := it.Initialize();
    if error.Some? {
      return Run([], error);
    }
    var tokens: seq<string> := [];
    ghost var whole := Tokenize(f.State(), s);
    assert [] + it.Rest().tokens == it.Rest().tokens;
    while !it.AtEnd()
      invariant it.Valid() && fresh(it) && fresh(it.func.Object())
      invariant tokens + it.Rest().tokens == whole.tokens && it.Rest().error == whole.error
      decreases |it.Rest().tokens|
    {
      var tok := it.token;
      error := it.Increment();
      if error.Some? {
        return Run(tokens + [tok], error);
      }
      MoveFirst(tokens, tok, it.Rest().tokens);
      tokens := tokens + [tok];
    }
    assert tokens + [] == tokens;
    run := Run(tokens, None);
  }
}
