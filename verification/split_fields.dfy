/** The token sequences of the delimiter splitter, in both of its modes. */
module SplitFields {
  import opened TokenizerTypes
  import opened CharSeparatorModule
  import opened TokenIteratorModule

  // ----- keeping empty tokens

  // The fields between the delimiters from i on, each kept delimiter a field of its own behind the
  // one it ends.
  function Fields(d: Delims, s: string, i: nat): seq<string>
    requires i <= |s|
    decreases |s| - i, 1
  {
    [s[i..RunEnd(d, s, i)]] + BehindField(d, s, RunEnd(d, s, i))
  }

  function BehindField(d: Delims, s: string, e: nat): seq<string>
    requires e <= |s|
    decreases |s| - e, 0
  {
    if e == |s| then []
    else (if d.IsKept(s[e]) then [[s[e]]] else []) + Fields(d, s, e + 1)
  }

  function NumDelims(d: Delims, s: string, i: nat): nat
    requires i <= |s|
    decreases |s| - i
  {
    if i == |s| then 0 else (if d.IsDelim(s[i]) then 1 else 0) + NumDelims(d, s, i + 1)
  }

  function NumKept(d: Delims, s: string, i: nat): nat
    requires i <= |s|
    decreases |s| - i
  {
    if i == |s| then 0 else (if d.IsKept(s[i]) then 1 else 0) + NumKept(d, s, i + 1)
  }

  lemma {:induction false} TokensBefore(d: Delims, s: string, i: nat)
    requires i <= |s| && d.keepEmpty
    ensures Tokens(Split(d, false), s, i) == Run(Fields(d, s, i), None)
    decreases |s| - i, 1
  {
    var e := RunEnd(d, s, i);
    assert Call(d, false, s, i) == Token(s[i..e], e, true);
    TokensBehind(d, s, e);
  }

  // Behind a field that has been returned: a dropped delimiter is passed over together with the
  // next field, a kept one is a token.
  lemma {:induction false} TokensBehind(d: Delims, s: string, e: nat)
    requires e <= |s| && d.keepEmpty && (e < |s| ==> d.IsDelim(s[e]))
    ensures Tokens(Split(d, true), s, e) == Run(BehindField(d, s, e), None)
    decreases |s| - e, 0
  {
    if e == |s| {
    } else if d.IsKept(s[e]) {
      assert Call(d, true, s, e) == Token([s[e]], e + 1, false);
      TokensBefore(d, s, e + 1);
    } else {
      var e' := RunEnd(d, s, e + 1);
      assert Call(d, true, s, e) == Token(s[e + 1..e'], e', true);
      TokensBehind(d, s, e');
      assert BehindField(d, s, e) == [] + Fields(d, s, e + 1);
    }
  }

  lemma {:induction false} RunCounts(d: Delims, s: string, i: nat)
    requires i <= |s|
    ensures NumDelims(d, s, i) == NumDelims(d, s, RunEnd(d, s, i))
    ensures NumKept(d, s, i) == NumKept(d, s, RunEnd(d, s, i))
    decreases |s| - i
  {
    if i < |s| && !d.IsDelim(s[i]) { RunCounts(d, s, i + 1); }
  }

  lemma {:induction false} FieldCount(d: Delims, s: string, i: nat)
    requires i <= |s|
    ensures |Fields(d, s, i)| == 1 + NumDelims(d, s, i) + NumKept(d, s, i)
    decreases |s| - i
  {
    var e := RunEnd(d, s, i);
    RunCounts(d, s, i);
    if e < |s| { FieldCount(d, s, e + 1); }
  }

  // With empty tokens kept, a fresh separator gives exactly the fields between all delimiters.
  lemma {:induction false} KeepEmptyTokens(d: Delims, s: string)
    requires d.keepEmpty && s != ""
    ensures var run := Tokenize(Split(d, false), s);
            run == Run(Fields(d, s, 0), None)
            && |run.tokens| == 1 + NumDelims(d, s, 0) + NumKept(d, s, 0)
  {
    TokensBefore(d, s, 0);
    FieldCount(d, s, 0);
  }

  predicate IsKeptToken(d: Delims, tok: string) {
    |tok| == 1 && d.IsKept(tok[0])
  }

  predicate HasNoDelim(d: Delims, tok: string) {
    forall k :: 0 <= k < |tok| ==> !d.IsDelim(tok[k])
  }

  // The kept delimiters among tokens, and those of the input from i on.
  function KeptTokens(d: Delims, tokens: seq<string>): string {
    if tokens == [] then ""
    else (if IsKeptToken(d, tokens[0]) then tokens[0] else "") + KeptTokens(d, tokens[1..])
  }

  function KeptChars(d: Delims, s: string, i: nat): string
    requires i <= |s|
    decreases |s| - i
  {
    if i == |s| then "" else (if d.IsKept(s[i]) then [s[i]] else "") + KeptChars(d, s, i + 1)
  }

  lemma {:induction false} KeptCons(d: Delims, tok: string, rest: seq<string>)
    ensures KeptTokens(d, [tok] + rest) == (if IsKeptToken(d, tok) then tok else "") + KeptTokens(d, rest)
  {
  }

  lemma {:induction false} KeptSkipsRun(d: Delims, s: string, i: nat)
    requires i <= |s|
    ensures KeptChars(d, s, i) == KeptChars(d, s, RunEnd(d, s, i))
    decreases |s| - i
  {
    if i < |s| && !d.IsDelim(s[i]) { KeptSkipsRun(d, s, i + 1); }
  }

  lemma {:induction false} FieldKinds(d: Delims, s: string, i: nat)
    requires i <= |s|
    ensures var tokens := Fields(d, s, i);
            && (forall k :: 0 <= k < |tokens| ==> IsKeptToken(d, tokens[k]) || HasNoDelim(d, tokens[k]))
            && KeptTokens(d, tokens) == KeptChars(d, s, i)
    decreases |s| - i
  {
    var e := RunEnd(d, s, i);
    KeptSkipsRun(d, s, i);
    assert HasNoDelim(d, s[i..e]);
    KeptCons(d, s[i..e], BehindField(d, s, e));
    if e < |s| {
      FieldKinds(d, s, e + 1);
      if d.IsKept(s[e]) {
        KeptCons(d, [s[e]], Fields(d, s, e + 1));
      } else {
        assert BehindField(d, s, e) == Fields(d, s, e + 1);
      }
    }
  }

  // Every token is one kept delimiter or holds no delimiter at all, and the former are all the kept
  // delimiters of the input in order.
  lemma {:induction false} KeepTokenKinds(d: Delims, s: string)
    requires d.keepEmpty && s != ""
    ensures var tokens := Tokenize(Split(d, false), s).tokens;
            && (forall k :: 0 <= k < |tokens| ==> IsKeptToken(d, tokens[k]) || HasNoDelim(d, tokens[k]))
            && KeptTokens(d, tokens) == KeptChars(d, s, 0)
  {
    KeepEmptyTokens(d, s);
    FieldKinds(d, s, 0);
  }

  function KeptField(d: Delims, e: char): seq<string> {
    if d.IsKept(e) then [[e]] else []
  }

  lemma {:induction false} FieldsFront(d: Delims, s: string, i: nat)
    requires i <= |s| && RunEnd(d, s, i) < |s|
    ensures var e := RunEnd(d, s, i);
            Fields(d, s, i) == [s[i..e]] + KeptField(d, s[e]) + Fields(d, s, e + 1)
  {
  }

  lemma {:induction false} RunEndsBefore(d: Delims, s: string, i: nat, a: nat)
    requires i < a <= |s| && d.IsDelim(s[a - 1])
    ensures RunEnd(d, s, i) < a
  {
  }

  lemma {:induction false} ConcatTokens(a: seq<string>, b: seq<string>, c: seq<string>)
    ensures a + (b + c) == (a + b) + c
  {
  }

  // The fields from behind a delimiter on are the last ones.
  lemma {:induction false} FieldsTail(d: Delims, s: string, i: nat, a: nat) returns (front: seq<string>)
    requires i <= a <= |s| && (i == a || d.IsDelim(s[a - 1]))
    ensures Fields(d, s, i) == front + Fields(d, s, a)
    decreases a - i
  {
    front := [];
    if i < a {
      var e := RunEnd(d, s, i);
      RunEndsBefore(d, s, i, a);
      FieldsFront(d, s, i);
      var rest := FieldsTail(d, s, e + 1, a);
      var first := [s[i..e]] + KeptField(d, s[e]);
      ConcatTokens(first, rest, Fields(d, s, a));
      front := first + rest;
    }
  }

  // Where each token comes from: the stretch between two neighbouring delimiters, or either end of the
  // input, is the token with as many tokens behind it as there are delimiters and kept delimiters
  // from its start on; a kept delimiter is the token behind the stretch that it ends.
  lemma {:induction false} KeepTokenAt(d: Delims, s: string, a: nat, e: nat)
    requires d.keepEmpty && s != "" && a <= e <= |s|
    requires (a == 0 || d.IsDelim(s[a - 1])) && (e == |s| || d.IsDelim(s[e]))
    requires forall j :: a <= j < e ==> !d.IsDelim(s[j])
    ensures var tokens := Tokenize(Split(d, false), s).tokens;
            var k := |tokens| - 1 - NumDelims(d, s, a) - NumKept(d, s, a);
            && 0 <= k < |tokens| && tokens[k] == s[a..e]
            && (e < |s| && d.IsKept(s[e]) ==> k + 1 < |tokens| && tokens[k + 1] == [s[e]])
  {
    KeepEmptyTokens(d, s);
    var front := FieldsTail(d, s, 0, a);
    FieldCount(d, s, a);
    RunReaches(d, s, a, e);
    assert (front + Fields(d, s, a))[|front|] == s[a..e];
    if e < |s| && d.IsKept(s[e]) {
      assert (front + Fields(d, s, a))[|front| + 1] == Fields(d, s, a)[1] == [s[e]];
    }
  }

  lemma {:induction false} RunReaches(d: Delims, s: string, a: nat, e: nat)
    requires a <= e <= |s| && (e == |s| || d.IsDelim(s[e]))
    requires forall j :: a <= j < e ==> !d.IsDelim(s[j])
    ensures RunEnd(d, s, a) == e
  {
    assert forall j :: a <= j < RunEnd(d, s, a) ==> !d.IsDelim(s[j]);
  }

  // A separator that has been through an input before: resetting it does nothing, so on an input
  // that starts with a delimiter the empty first field is missing.
  lemma {:induction false} UsedSeparator(d: Delims, s: string)
    requires d.keepEmpty && s != ""
    ensures var unused, used := Tokenize(Split(d, false), s), Tokenize(Split(d, true), s);
            if d.IsDelim(s[0]) then unused.tokens == [""] + used.tokens && unused.error == used.error
            else unused == used
  {
  }

  function Join(tokens: seq<string>, c: char): string
    requires tokens != []
  {
    if |tokens| == 1 then tokens[0] else tokens[0] + [c] + Join(tokens[1..], c)
  }

  // One dropped delimiter and none kept.
  ghost predicate OnlyDelimiter(d: Delims, c: char) {
    forall x :: !d.IsKept(x) && (d.IsDropped(x) <==> x == c)
  }

  lemma {:induction false} FieldsAtDropped(d: Delims, s: string, i: nat)
    requires i <= |s|
    ensures var e := RunEnd(d, s, i);
            e < |s| && !d.IsKept(s[e]) ==> Fields(d, s, i) == [s[i..e]] + Fields(d, s, e + 1)
  {
  }

  lemma {:induction false} JoinFields(d: Delims, s: string, i: nat, c: char)
    requires i <= |s|
    requires OnlyDelimiter(d, c)
    ensures Join(Fields(d, s, i), c) == s[i..]
    decreases |s| - i
  {
    var e := RunEnd(d, s, i);
    if e < |s| {
      var rest := Fields(d, s, e + 1);
      JoinFields(d, s, e + 1, c);
      FieldsAtDropped(d, s, i);
      JoinCons(s[i..e], rest, c);
      SplitAt(s, i, e);
    } else {
      assert Fields(d, s, i) == [s[i..e]];
    }
  }

  lemma {:induction false} SplitAt(s: string, i: nat, e: nat)
    requires i <= e < |s|
    ensures s[i..] == s[i..e] + [s[e]] + s[e + 1..]
  {
  }

  lemma {:induction false} JoinCons(tok: string, rest: seq<string>, c: char)
    requires rest != []
    ensures Join([tok] + rest, c) == tok + [c] + Join(rest, c)
  {
  }

  // With one dropped delimiter and none kept, splitting is undone by joining.
  lemma {:induction false} SplitJoin(d: Delims, s: string, c: char)
    requires d.keepEmpty && s != ""
    requires OnlyDelimiter(d, c)
    ensures var tokens := Tokenize(Split(d, false), s).tokens;
            tokens != [] && Join(tokens, c) == s
  {
    KeepEmptyTokens(d, s);
    JoinFields(d, s, 0, c);
    assert s[0..] == s;
  }

  function Concat(tokens: seq<string>): string {
    if tokens == [] then "" else tokens[0] + Concat(tokens[1..])
  }

  // ----- dropping empty tokens

  // The input without what the splitter leaves out.
  function Without(d: Delims, s: string, i: nat): string
    requires i <= |s|
    decreases |s| - i
  {
    if i == |s| then "" else (if d.IsDropped(s[i]) then "" else [s[i]]) + Without(d, s, i + 1)
  }

  // The stretch from a to b is one token: a kept delimiter, or a delimiter-free run that could not
  // be any longer on either side.
  ghost predicate IsToken(d: Delims, s: string, a: nat, b: nat) {
    && a < b <= |s|
    && (if d.IsDelim(s[a]) then b == a + 1 && d.IsKept(s[a]) && !d.IsDropped(s[a])
        else (forall j :: a <= j < b ==> !d.IsDelim(s[j]))
             && (a == 0 || d.IsDelim(s[a - 1])) && (b == |s| || d.IsDelim(s[b])))
  }

  // The tokens, in order, of the part of the input from i on, with only dropped characters between.
  ghost predicate Partition(d: Delims, s: string, i: nat, tokens: seq<string>)
    requires i <= |s|
    decreases |tokens|
  {
    if tokens == [] then forall j :: i <= j < |s| ==> d.IsDropped(s[j])
    else exists a: nat, b: nat :: StartsWith(d, s, i, tokens[0], a, b) && Partition(d, s, b, tokens[1..])
  }

  ghost predicate StartsWith(d: Delims, s: string, i: nat, tok: string, a: nat, b: nat)
    ensures StartsWith(d, s, i, tok, a, b) ==> b <= |s|
  {
    && i <= a && IsToken(d, s, a, b) && tok == s[a..b]
    && forall j :: i <= j < a ==> d.IsDropped(s[j])
  }

  // Where a token may start: after a delimiter, on one, or at either end of the input.
  ghost predicate AtBoundary(d: Delims, s: string, i: nat)
    requires i <= |s|
  {
    i == 0 || i == |s| || d.IsDelim(s[i - 1]) || d.IsDelim(s[i])
  }

  lemma {:induction false} DropOne(d: Delims, s: string, i: nat, done: bool)
    requires i <= |s| && !d.keepEmpty && AtBoundary(d, s, i)
    ensures var r := Call(d, done, s, i);
            if r.Finished? then forall j :: i <= j < |s| ==> d.IsDropped(s[j])
            else r.Token? && r.flag == done && AtBoundary(d, s, r.next)
                 && StartsWith(d, s, i, r.tok, SkipDropped(d, s, i), r.next)
  {
  }

  lemma {:induction false} PartitionCons(d: Delims, s: string, i: nat, tok: string, rest: seq<string>, a: nat, b: nat)
    requires i <= |s| && StartsWith(d, s, i, tok, a, b) && Partition(d, s, b, rest)
    ensures Partition(d, s, i, [tok] + rest)
  {
    var tokens := [tok] + rest;
    assert tokens[0] == tok && tokens[1..] == rest;
    assert StartsWith(d, s, i, tokens[0], a, b) && Partition(d, s, b, tokens[1..]);
  }

  lemma {:induction false} DropTokensFrom(d: Delims, s: string, i: nat, done: bool)
    requires i <= |s| && !d.keepEmpty && AtBoundary(d, s, i)
    ensures var run := Tokens(Split(d, done), s, i);
            run.error == None && Partition(d, s, i, run.tokens)
    decreases |s| - i
  {
    var run, r := Tokens(Split(d, done), s, i), Call(d, done, s, i);
    DropOne(d, s, i, done);
    if r.Token? {
      DropTokensFrom(d, s, r.next, done);
      var rest := Tokens(Split(d, done), s, r.next);
      TokensOneMore(Split(d, done), s, i);
      PartitionCons(d, s, i, r.tok, rest.tokens, SkipDropped(d, s, i), r.next);
    } else {
      assert run.tokens == [];
    }
  }

  lemma {:induction false} WithoutSkips(d: Delims, s: string, i: nat, a: nat)
    requires i <= a <= |s| && forall j :: i <= j < a ==> d.IsDropped(s[j])
    ensures Without(d, s, i) == Without(d, s, a)
    decreases a - i
  {
    if i < a { WithoutSkips(d, s, i + 1, a); }
  }

  lemma {:induction false} WithoutKeeps(d: Delims, s: string, a: nat, b: nat)
    requires a <= b <= |s| && forall j :: a <= j < b ==> !d.IsDropped(s[j])
    ensures Without(d, s, a) == s[a..b] + Without(d, s, b)
    decreases b - a
  {
    if a < b {
      WithoutKeeps(d, s, a + 1, b);
      assert s[a..b] == [s[a]] + s[a + 1..b];
    }
  }

  // A partition loses nothing but the dropped characters.
  lemma {:induction false} PartitionConcat(d: Delims, s: string, i: nat, tokens: seq<string>)
    requires i <= |s| && Partition(d, s, i, tokens)
    ensures Concat(tokens) == Without(d, s, i)
    decreases |tokens|
  {
    if tokens == [] {
      WithoutSkips(d, s, i, |s|);
    } else {
      var a: nat, b: nat :| StartsWith(d, s, i, tokens[0], a, b) && Partition(d, s, b, tokens[1..]);
      PartitionConcat(d, s, b, tokens[1..]);
      WithoutSkips(d, s, i, a);
      TokenHasNoDropped(d, s, a, b);
      WithoutKeeps(d, s, a, b);
    }
  }

  lemma {:induction false} TokenHasNoDropped(d: Delims, s: string, a: nat, b: nat)
    requires IsToken(d, s, a, b)
    ensures forall j :: a <= j < b ==> !d.IsDropped(s[j])
  {
  }

  lemma {:induction false} PartitionNonEmpty(d: Delims, s: string, i: nat, tokens: seq<string>, k: nat)
    requires i <= |s| && Partition(d, s, i, tokens) && k < |tokens|
    ensures tokens[k] != ""
    decreases |tokens|
  {
    var a: nat, b: nat :| StartsWith(d, s, i, tokens[0], a, b) && Partition(d, s, b, tokens[1..]);
    if k == 0 {
      assert |tokens[0]| == b - a;
    } else {
      PartitionNonEmpty(d, s, b, tokens[1..], k - 1);
    }
  }

  // With empty tokens dropped, the flag of the separator plays no part.
  lemma {:induction false} DropEmptyTokens(d: Delims, s: string, done: bool)
    requires !d.keepEmpty
    ensures var run := Tokenize(Split(d, done), s);
            && run.error == None
            && Partition(d, s, 0, run.tokens)
            && Concat(run.tokens) == Without(d, s, 0)
            && (forall k :: 0 <= k < |run.tokens| ==> run.tokens[k] != "")
  {
    if s != "" { DropTokensFrom(d, s, 0, done); }
    var tokens := Tokenize(Split(d, done), s).tokens;
    PartitionConcat(d, s, 0, tokens);
    forall k | 0 <= k < |tokens| ensures tokens[k] != "" {
      PartitionNonEmpty(d, s, 0, tokens, k);
    }
  }

  // The input without the delimiters that are dropped when empty tokens are kept; there a character
  // that is in both sets counts as kept.
  function WithoutUnkept(d: Delims, s: string, i: nat): string
    requires i <= |s|
    decreases |s| - i
  {
    if i == |s| then ""
    else (if d.IsDropped(s[i]) && !d.IsKept(s[i]) then "" else [s[i]]) + WithoutUnkept(d, s, i + 1)
  }

  lemma {:induction false} RunIsWhole(d: Delims, s: string, i: nat)
    requires i <= |s|
    ensures WithoutUnkept(d, s, i) == s[i..RunEnd(d, s, i)] + WithoutUnkept(d, s, RunEnd(d, s, i))
    decreases |s| - i
  {
    if i < |s| && !d.IsDelim(s[i]) {
      var e := RunEnd(d, s, i);
      RunIsWhole(d, s, i + 1);
      ConsOntoSlice(s, i, e, WithoutUnkept(d, s, e));
    }
  }

  lemma {:induction false} ConsOntoSlice(s: string, i: nat, e: nat, rest: string)
    requires i < e <= |s|
    ensures [s[i]] + (s[i + 1..e] + rest) == s[i..e] + rest
  {
    assert [s[i]] + s[i + 1..e] == s[i..e];
  }

  lemma {:induction false} ConcatCons(tok: string, rest: seq<string>)
    ensures Concat([tok] + rest) == tok + Concat(rest)
  {
  }

  // Nothing else is lost.
  lemma {:induction false} FieldsConcat(d: Delims, s: string, i: nat)
    requires i <= |s|
    ensures Concat(Fields(d, s, i)) == WithoutUnkept(d, s, i)
    decreases |s| - i
  {
    var e := RunEnd(d, s, i);
    RunIsWhole(d, s, i);
    ConcatCons(s[i..e], BehindField(d, s, e));
    if e < |s| {
      FieldsConcat(d, s, e + 1);
      if d.IsKept(s[e]) {
        ConcatCons([s[e]], Fields(d, s, e + 1));
      } else {
        assert BehindField(d, s, e) == [] + Fields(d, s, e + 1) == Fields(d, s, e + 1);
      }
    }
  }
}
