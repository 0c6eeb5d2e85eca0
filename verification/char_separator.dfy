/** The splitter at single-character delimiters, kept or dropped. */
module CharSeparatorModule {
  import opened TokenizerTypes

  // The classification functions stand in for the locale's; they matter only when the delimiter
  // string of their kind is empty and their switch is on.
  datatype Delims = Delims(kept: string, dropped: string, usePunct: bool, useSpace: bool,
                           isPunct: char -> bool, isSpace: char -> bool, keepEmpty: bool)
  {
    predicate IsKept(e: char) {
      if |kept| > 0 then e in kept else usePunct && isPunct(e)
    }

    predicate IsDropped(e: char) {
      if |dropped| > 0 then e in dropped else useSpace && isSpace(e)
    }

    predicate IsDelim(e: char) {
      IsKept(e) || IsDropped(e)
    }
  }

  // The end of the delimiter-free run that starts at i.
  function RunEnd(d: Delims, s: string, i: nat): (r: nat)
    requires i <= |s|
    ensures i <= r <= |s|
    ensures forall j :: i <= j < r ==> !d.IsDelim(s[j])
    ensures r < |s| ==> d.IsDelim(s[r])
    decreases |s| - i
  {
    if i == |s| || d.IsDelim(s[i]) then i else RunEnd(d, s, i + 1)
  }

  function SkipDropped(d: Delims, s: string, i: nat): (r: nat)
    requires i <= |s|
    ensures i <= r <= |s|
    ensures forall j :: i <= j < r ==> d.IsDropped(s[j])
    ensures r < |s| ==> !d.IsDropped(s[r])
    decreases |s| - i
  {
    if i == |s| || !d.IsDropped(s[i]) then i else SkipDropped(d, s, i + 1)
  }

  // One call at position i; `done` says that the field before i has been returned.
  function Call(d: Delims, done: bool, s: string, i: nat): (r: CallResult)
    requires i <= |s|
    ensures !r.Thrown? && (r.Token? ==> i <= r.next <= |s|)
    ensures r.Token? ==> 2 * (|s| - r.next) + (if r.flag then 0 else 1) < 2 * (|s| - i) + (if done then 0 else 1)
  {
    if !d.keepEmpty then
      var j := SkipDropped(d, s, i);
      if j == |s| then Finished
      else if d.IsKept(s[j]) then Token([s[j]], j + 1, done)
      else Token(s[j..RunEnd(d, s, j)], RunEnd(d, s, j), done)
    else if i == |s| then
      if !done then Token("", i, true) else Finished
    else if d.IsKept(s[i]) then
      if !done then Token("", i, true) else Token([s[i]], i + 1, false)
    else if !done && d.IsDropped(s[i]) then Token("", i, true)
    else
      var start := if d.IsDropped(s[i]) then i + 1 else i;
      Token(s[start..RunEnd(d, s, start)], RunEnd(d, s, start), true)
  }

  class CharSeparator {
    const delims: Delims
    var outputDone: bool

    constructor (d: Delims)
      ensures delims == d && !outputDone
    {
      delims, outputDone := d, false;
    }

    // The constructor from delimiter strings, either of which may be empty.
    constructor FromStrings(dropped: string, kept: string, keepEmpty: bool)
      ensures !outputDone && delims.keepEmpty == keepEmpty
      ensures forall e :: (delims.IsDropped(e) <==> e in dropped) && (delims.IsKept(e) <==> e in kept)
    {
      delims := Delims(kept, dropped, false, false, _ => false, _ => false, keepEmpty);
      outputDone := false;
    }

    // The constructor without arguments: spaces are dropped and punctuation is kept.
    constructor Default(isPunct: char -> bool, isSpace: char -> bool)
      ensures !outputDone && !delims.keepEmpty
      ensures forall e :: (delims.IsDropped(e) <==> isSpace(e)) && (delims.IsKept(e) <==> isPunct(e))
    {
      delims := Delims("", "", true, true, isPunct, isSpace, false);
      outputDone := false;
    }

    constructor Copy(f: CharSeparator)
      ensures delims == f.delims && outputDone == f.outputDone
    {
      delims, outputDone := f.delims, f.outputDone;
    }

    // Nothing is reset: a separator that has been used keeps its flag.
    method Reset()
      ensures outputDone == old(outputDone)
    {
    }

    // The function call operator. For input iterators the token is built up character by character
    // (byAppend); otherwise it is assigned from the positions in one go. Both give the same token.
    method Apply(s: string, next0: nat, tok0: string, byAppend: bool) returns (r: CallResult)
      requires next0 <= |s|
      modifies this`outputDone
      ensures r == Call(delims, old(outputDone), s, next0)
      ensures outputDone == if r.Token? then r.flag else old(outputDone)
    {
      var tok := if byAppend then "" else tok0;
      if !delims.keepEmpty {
        r := ApplyDropping(s, next0, tok, byAppend);
      } else {
        r := ApplyKeeping(s, next0, tok, byAppend);
      }
    }

    // The branches for dropping empty tokens.
    method ApplyDropping(s: string, next0: nat, tok0: string, byAppend: bool) returns (r: CallResult)
      requires next0 <= |s| && !delims.keepEmpty && (byAppend ==> tok0 == "")
      ensures r == Call(delims, outputDone, s, next0)
      ensures r.Token? ==> r.flag == outputDone
    {
      var next, tok := next0, tok0;
      while next != |s| && delims.IsDropped(s[next])
        invariant next0 <= next <= |s|
        invariant SkipDropped(delims, s, next) == SkipDropped(delims, s, next0)
        decreases |s| - next
      {
        next := next + 1;
      }
      var start := next;
      if next == |s| {
        return Finished;
      }
      if delims.IsKept(s[next]) {
        if byAppend { tok := tok + [s[next]]; }
        next := next + 1;
      } else {
        next, tok := AppendRun(s, next, tok, byAppend);
      }
      if !byAppend { tok := s[start..next]; }
      r := Token(tok, next, outputDone);
    }

    // The branches for keeping empty tokens.
    method ApplyKeeping(s: string, next0: nat, tok0: string, byAppend: bool) returns (r: CallResult)
      requires next0 <= |s| && delims.keepEmpty && (byAppend ==> tok0 == "")
      modifies this`outputDone
      ensures r == Call(delims, old(outputDone), s, next0)
      ensures outputDone == if r.Token? then r.flag else old(outputDone)
    {
      var next, tok := next0, tok0;
      var start := next;
      if next == |s| {
        if !outputDone {
          outputDone := true;
          if !byAppend { tok := s[start..next]; }
          return Token(tok, next, true);
        } else {
          return Finished;
        }
      }
      if delims.IsKept(s[next]) {
        if !outputDone {
          outputDone := true;
        } else {
          if byAppend { tok := tok + [s[next]]; }
          next := next + 1;
          outputDone := false;
        }
      } else if !outputDone && delims.IsDropped(s[next]) {
        outputDone := true;
      } else {
        if delims.IsDropped(s[next]) {
          next := next + 1;
          start := next;
        }
        next, tok := AppendRun(s, next, tok, byAppend);
        outputDone := true;
      }
      if !byAppend { tok := s[start..next]; }
      r := Token(tok, next, outputDone);
    }

    // Appends all the characters up to the next delimiter.
    method AppendRun(s: string, next0: nat, tok0: string, byAppend: bool) returns (next: nat, tok: string)
      requires next0 <= |s|
      ensures next == RunEnd(delims, s, next0)
      ensures tok == if byAppend then tok0 + s[next0..next] else tok0
    {
      next, tok := next0, tok0;
      while next != |s| && !delims.IsDropped(s[next]) && !delims.IsKept(s[next])
        invariant next0 <= next <= |s|
        invariant RunEnd(delims, s, next) == RunEnd(delims, s, next0)
        invariant tok == if byAppend then tok0 + s[next0..next] else tok0
        decreases |s| - next
      {
        if byAppend { tok := tok + [s[next]]; }
        next := next + 1;
      }
    }
  }
}
