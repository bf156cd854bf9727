/** Splitting a command line with a state machine that can put characters back. */
module Splitters {
  import opened Wrappers
  import opened CommandLines
  import opened Sequences

  class PushbackSequence {
    var rest: string
    /** The characters put back; the last one comes first. */
    var buffer: string

    constructor (orig: string)
      ensures Pending() == orig
    {
      rest, buffer := orig, "";
    }

    ghost function Pending(): string
      reads this
    {
      Backwards(buffer) + rest
    }

    method Next() returns (c: Option<char>)
      modifies this
      ensures old(Pending()) == "" ==> c == None && Pending() == ""
      ensures old(Pending()) != "" ==> c == Some(old(Pending())[0]) && Pending() == old(Pending())[1..]
    {
      if |buffer| > 0 {
        assert Pending() == [buffer[|buffer| - 1]] + (Backwards(buffer[..|buffer| - 1]) + rest);
        c := Some(buffer[|buffer| - 1]);
        buffer := buffer[..|buffer| - 1];
      } else if |rest| > 0 {
        assert Pending() == rest;
        c := Some(rest[0]);
        rest := rest[1..];
        assert Pending() == rest;
      } else {
        c := None;
      }
    }

    method Pushback(c: char)
      modifies this
      ensures Pending() == [c] + old(Pending())
    {
      assert (buffer + [c])[..|buffer|] == buffer;
      buffer := buffer + [c];
      assert Pending() == [c] + (Backwards(buffer[..|buffer| - 1]) + rest);
    }
  }

  datatype State =
    | Whitespace
    | Quotes(quoteChar: char, exitState: State)
    | Backslash(exitState: State, count: nat)
    | Word

  function ModeOf(state: State): Mode {
    match state
    case Whitespace => Blank
    case Word => InWord
    case Quotes(quote, exit) => InQuotes(quote, ModeOf(exit))
    case Backslash(exit, _) => ModeOf(exit)
  }

  ghost predicate Sane(single: bool, state: State) {
    match state
    case Quotes(quote, exit) => IsQuote(single, quote) && (exit == Whitespace || exit == Word)
    case Backslash(exit, count) => count > 0 && !exit.Backslash? && Sane(single, exit)
    case _ => true
  }

  /** What the splitter is about to read, in terms of the specification. */
  ghost function Reads(single: bool, state: State, token: string, quoted: bool, pending: string): Scanned {
    match state
    case Backslash(exit, count) => Scan(single, ModeOf(exit), token, quoted, Backslashes(count) + pending)
    case _ => Scan(single, ModeOf(state), token, quoted, pending)
  }

  /** Reading on from here comes to `result`. */
  ghost predicate Leaves(single: bool, result: Scanned, state: State, token: string, quoted: bool, pending: string) {
    forall s: string {:trigger Reads(single, state, token, quoted, s)} | s == pending ::
      result == Reads(single, state, token, quoted, s)
  }

  /** Pieces of a token have been collected exactly if it has begun. */
  ghost predicate Collected(state: State, token: seq<string>, quoted: bool) {
    && (token != [] ==> Concat(token) != "" || quoted)
    && (ModeOf(state) == Blank && quoted ==> token != [])
    && Begun(ModeOf(state), Concat(token), quoted)
  }

  // ---------------------------------------------------------------------------------
  // What one character does

  /** The machine after a character: still reading, or at the end of the token. */
  ghost predicate Stepped(single: bool, result: Scanned, next: Option<State>, token: seq<string>, quoted: bool, pending: string) {
    match next
    case None => result == Scanned(quoted, Concat(token), pending)
    case Some(state) =>
      && Sane(single, state) && Collected(state, token, quoted)
      && Leaves(single, result, state, Concat(token), quoted, pending)
  }

  lemma ReadsFirst(single: bool, state: State, token: string, quoted: bool, c: char, pending: string)
    requires !state.Backslash? && c != '\\'
    ensures Reads(single, state, token, quoted, [c] + pending) ==
            if state.Quotes? then
              if c == state.quoteChar then Scan(single, ModeOf(state.exitState), token, quoted, pending)
              else Reads(single, state, token + [c], quoted, pending)
            else if IsSpace(c) then
              if state.Word? || token != "" || quoted then Scanned(quoted, token, pending)
              else Reads(single, Whitespace, token, quoted, pending)
            else if IsQuote(single, c) then Reads(single, Quotes(c, state), token, quoted || state.Whitespace?, pending)
            else Reads(single, Word, token + [c], quoted, pending)
  {
    assert ([c] + pending)[1..] == pending;
  }

  lemma ReadsBackslash(single: bool, state: State, token: string, quoted: bool, pending: string)
    requires !state.Backslash?
    ensures Reads(single, state, token, quoted, ['\\'] + pending) == Reads(single, Backslash(state, 1), token, quoted, pending)
  {
    assert Backslashes(1) == ['\\'];
  }

  /** A run of backslashes grows, or is settled by the character after it. */
  lemma ReadsRun(single: bool, exit: State, count: nat, token: string, quoted: bool, c: char, pending: string)
    requires count > 0 && !exit.Backslash?
    ensures Reads(single, Backslash(exit, count), token, quoted, [c] + pending) ==
            if c == '\\' then Reads(single, Backslash(exit, count + 1), token, quoted, pending)
            else if IsQuote(single, c) then
              if count % 2 == 1 then Reads(single, exit, token + Backslashes(count / 2) + [c], quoted, pending)
              else Reads(single, exit, token + Backslashes(count / 2), quoted, [c] + pending)
            else Reads(single, exit, token + Backslashes(count), quoted, [c] + pending)
  {
    if c == '\\' {
      BackslashesEnd(count);
      Shift(Backslashes(count), ['\\'], pending);
    } else {
      ScanRun(single, ModeOf(exit), token, quoted, count, [c] + pending);
      assert ([c] + pending)[1..] == pending;
    }
  }

  lemma ReadsLastRun(single: bool, mode: Mode, token: string, quoted: bool, count: nat)
    requires count > 0
    ensures Scan(single, mode, token, quoted, Backslashes(count) + "") == Scanned(quoted, token + Backslashes(count), "")
  {
    var input := Backslashes(count) + "";
    RunOfBackslashes(count, "");
    assert input[0] == '\\' && Run(input) == count;
    assert input[count..] == "";
    assert Scan(single, mode, token + Backslashes(count), quoted, "") == Scanned(quoted, token + Backslashes(count), "");
  }

  lemma {:induction false} BackslashesEnd(n: nat)
    ensures Backslashes(n) + ['\\'] == Backslashes(n + 1)
  {
    if n > 0 {
      BackslashesEnd(n - 1);
      Shift(['\\'], Backslashes(n - 1), ['\\']);
    }
  }

  /** What a character outside a run of backslashes leads to. */
  lemma FirstStep(single: bool, result: Scanned, state: State, token: string, quoted: bool, c: char, pending: string)
    requires !state.Backslash? && Sane(single, state) && Leaves(single, result, state, token, quoted, [c] + pending)
    ensures if c == '\\' then Leaves(single, result, Backslash(state, 1), token, quoted, pending)
            else if state.Quotes? then
              if c == state.quoteChar then Leaves(single, result, state.exitState, token, quoted, pending)
              else Leaves(single, result, state, token + [c], quoted, pending)
            else if IsSpace(c) then
              if state.Word? || token != "" || quoted then result == Scanned(quoted, token, pending)
              else Leaves(single, result, Whitespace, token, quoted, pending)
            else if IsQuote(single, c) then Leaves(single, result, Quotes(c, state), token, quoted || state.Whitespace?, pending)
            else Leaves(single, result, Word, token + [c], quoted, pending)
  {
    assert result == Reads(single, state, token, quoted, [c] + pending);
    if c == '\\' {
      ReadsBackslash(single, state, token, quoted, pending);
    } else {
      ReadsFirst(single, state, token, quoted, c, pending);
    }
  }

  /** What a character after a run of backslashes leads to. */
  lemma RunStep(single: bool, result: Scanned, exit: State, count: nat, token: string, quoted: bool, c: char, pending: string)
    requires count > 0 && !exit.Backslash? && Leaves(single, result, Backslash(exit, count), token, quoted, [c] + pending)
    ensures if c == '\\' then Leaves(single, result, Backslash(exit, count + 1), token, quoted, pending)
            else if IsQuote(single, c) then
              if count % 2 == 1 then Leaves(single, result, exit, token + Backslashes(count / 2) + [c], quoted, pending)
              else Leaves(single, result, exit, token + Backslashes(count / 2), quoted, [c] + pending)
            else Leaves(single, result, exit, token + Backslashes(count), quoted, [c] + pending)
  {
    assert result == Reads(single, Backslash(exit, count), token, quoted, [c] + pending);
    ReadsRun(single, exit, count, token, quoted, c, pending);
  }

  lemma LastStep(single: bool, result: Scanned, state: State, token: string, quoted: bool)
    requires Sane(single, state) && Leaves(single, result, state, token, quoted, "")
    ensures result == Scanned(quoted, token + if state.Backslash? then Backslashes(state.count) else "", "")
  {
    assert result == Reads(single, state, token, quoted, "");
    if state.Backslash? {
      ReadsLastRun(single, ModeOf(state.exitState), token, quoted, state.count);
    } else {
      assert token + "" == token;
    }
  }

  lemma StaysCollected(exit: State, before: seq<string>, token: seq<string>, quoted: bool)
    requires Collected(exit, before, quoted) && |token| > |before| && |Concat(token)| > 0
    ensures Collected(exit, token, quoted)
  {
  }

  /** A new token is about to be read. */
  lemma TokenToRead(single: bool, pending: string) returns (result: Scanned)
    ensures result == NextToken(single, pending) && Leaves(single, result, Whitespace, "", false, pending)
    ensures !result.quoted && result.token == "" ==> result.rest == ""
  {
    result := NextToken(single, pending);
    NoTokenMeansNoInput(single, Blank, "", false, pending);
  }

  class Splitter {
    const source: PushbackSequence
    const single: bool
    var token: seq<string>
    var quoted: bool

    constructor (commandLine: string, singleQuotesAllowed: bool)
      ensures fresh(source) && source.Pending() == commandLine && single == singleQuotesAllowed
    {
      source := new PushbackSequence(commandLine);
      single := singleQuotesAllowed;
      token, quoted := [], false;
    }

    method Append(s: string)
      modifies this`token
      ensures token == old(token) + [s] && Concat(token) == Concat(old(token)) + s
    {
      ConcatAppend(token, s);
      token := token + [s];
    }

    method ProcessWhitespace(c: char, ghost result: Scanned) returns (next: Option<State>)
      requires Collected(Whitespace, token, quoted)
      requires Leaves(single, result, Whitespace, Concat(token), quoted, [c] + source.Pending())
      modifies this
      ensures Stepped(single, result, next, token, quoted, source.Pending())
    {
      FirstStep(single, result, Whitespace, Concat(token), quoted, c, source.Pending());
      if IsSpace(c) {
        next := if |token| > 0 then None else Some(Whitespace);
      } else if IsQuote(single, c) {
        quoted := true;
        next := Some(Quotes(c, Whitespace));
      } else if c == '\\' {
        next := Some(Backslash(Whitespace, 1));
      } else {
        Append([c]);
        next := Some(Word);
      }
    }

    method ProcessWord(c: char, ghost result: Scanned) returns (next: Option<State>)
      requires Collected(Word, token, quoted)
      requires Leaves(single, result, Word, Concat(token), quoted, [c] + source.Pending())
      modifies this
      ensures Stepped(single, result, next, token, quoted, source.Pending())
    {
      FirstStep(single, result, Word, Concat(token), quoted, c, source.Pending());
      if IsSpace(c) {
        next := None;
      } else if IsQuote(single, c) {
        next := Some(Quotes(c, Word));
      } else if c == '\\' {
        next := Some(Backslash(Word, 1));
      } else {
        Append([c]);
        next := Some(Word);
      }
    }

    method ProcessQuotes(state: State, c: char, ghost result: Scanned) returns (next: Option<State>)
      requires state.Quotes? && Sane(single, state) && Collected(state, token, quoted)
      requires Leaves(single, result, state, Concat(token), quoted, [c] + source.Pending())
      modifies this
      ensures Stepped(single, result, next, token, quoted, source.Pending())
    {
      FirstStep(single, result, state, Concat(token), quoted, c, source.Pending());
      if c == '\\' {
        next := Some(Backslash(state, 1));
      } else if c == state.quoteChar {
        Append("");
        assert Concat(old(token)) + "" == Concat(old(token));
        next := Some(state.exitState);
      } else {
        Append([c]);
        next := Some(state);
      }
    }

    method ProcessBackslash(state: State, c: char, ghost result: Scanned) returns (next: Option<State>)
      requires state.Backslash? && Sane(single, state) && Collected(state, token, quoted)
      requires Leaves(single, result, state, Concat(token), quoted, [c] + source.Pending())
      modifies this, source
      ensures Stepped(single, result, next, token, quoted, source.Pending())
      ensures |source.Pending()| <= |old(source.Pending())| + 1
      ensures |source.Pending()| > |old(source.Pending())| ==> next.Some? && !next.value.Backslash?
    {
      var exit, count := state.exitState, state.count;
      RunStep(single, result, exit, count, Concat(token), quoted, c, source.Pending());
      if c == '\\' {
        next := Some(Backslash(exit, count + 1));
      } else {
        next := Some(exit);
        if IsQuote(single, c) {
          SettleQuote(exit, count, c, result);
        } else {
          SettleRun(exit, count, c, result);
        }
      }
    }

    /** Half of the backslashes before a quote, and the quote itself if their number is odd. */
    method SettleQuote(exit: State, count: nat, c: char, ghost result: Scanned)
      requires count > 0 && Collected(exit, token, quoted)
      requires if count % 2 == 1 then Leaves(single, result, exit, Concat(token) + Backslashes(count / 2) + [c], quoted, source.Pending())
               else Leaves(single, result, exit, Concat(token) + Backslashes(count / 2), quoted, [c] + source.Pending())
      modifies this`token, source
      ensures Collected(exit, token, quoted) && Leaves(single, result, exit, Concat(token), quoted, source.Pending())
      ensures |source.Pending()| <= |old(source.Pending())| + 1
    {
      ghost var before := token;
      Append(Backslashes(count / 2));
      if count % 2 == 1 {
        Append([c]);
      } else {
        source.Pushback(c);
      }
      StaysCollected(exit, before, token, quoted);
    }

    /** All backslashes before another character. */
    method SettleRun(exit: State, count: nat, c: char, ghost result: Scanned)
      requires count > 0 && Collected(exit, token, quoted)
      requires Leaves(single, result, exit, Concat(token) + Backslashes(count), quoted, [c] + source.Pending())
      modifies this`token, source
      ensures Collected(exit, token, quoted) && Leaves(single, result, exit, Concat(token), quoted, source.Pending())
      ensures |source.Pending()| <= |old(source.Pending())| + 1
    {
      ghost var before := token;
      Append(Backslashes(count));
      source.Pushback(c);
      StaysCollected(exit, before, token, quoted);
    }

    method Process(state: State, c: char, ghost result: Scanned) returns (next: Option<State>)
      requires Sane(single, state) && Collected(state, token, quoted)
      requires Leaves(single, result, state, Concat(token), quoted, [c] + source.Pending())
      modifies this, source
      ensures Stepped(single, result, next, token, quoted, source.Pending())
      ensures |source.Pending()| <= |old(source.Pending())| + if state.Backslash? then 1 else 0
      ensures |source.Pending()| > |old(source.Pending())| ==> next.Some? && !next.value.Backslash?
    {
      match state
      case Whitespace => next := ProcessWhitespace(c, result);
      case Word => next := ProcessWord(c, result);
      case Quotes(_, _) => next := ProcessQuotes(state, c, result);
      case Backslash(_, _) => next := ProcessBackslash(state, c, result);
    }

    /**
     The next token: whether it began with a quote, and its text unless there is none. All
     input is then consumed.
     */
    method GetToken() returns (wasQuoted: bool, result: Option<string>)
      modifies this, source
      ensures var next := NextToken(single, old(source.Pending()));
              && source.Pending() == next.rest && wasQuoted == next.quoted
              && result == (if !next.quoted && next.token == "" then None else Some(next.token))
      ensures result.None? ==> source.Pending() == ""
    {
      ghost var next := TokenToRead(single, source.Pending());
      ReadToken(next);
      wasQuoted := quoted;
      var joined := JoinToken();
      result := if !quoted && joined == "" then None else Some(joined);
    }

    /** The loop: one character after another, until the token or the input ends. */
    method ReadToken(ghost result: Scanned)
      requires Leaves(single, result, Whitespace, "", false, source.Pending())
      modifies this, source
      ensures result == Scanned(quoted, Concat(token), source.Pending())
    {
      quoted, token := false, [];
      var state := Some(Whitespace);
      while state.Some?
        invariant Stepped(single, result, state, token, quoted, source.Pending())
        decreases if state.Some? then 2 * |source.Pending()| + (if state.value.Backslash? then 2 else 1) else 0
      {
        ghost var pending := source.Pending();
        var c := source.Next();
        if c.None? {
          Finish(state.value, result);
          return;
        }
        assert pending == [c.value] + source.Pending();
        state := Process(state.value, c.value, result);
      }
    }

    /** At the end of input a run of backslashes stands for itself. */
    method Finish(state: State, ghost result: Scanned)
      requires Sane(single, state) && source.Pending() == ""
      requires Leaves(single, result, state, Concat(token), quoted, "")
      modifies this
      ensures result == Scanned(quoted, Concat(token), "")
    {
      LastStep(single, result, state, Concat(token), quoted);
      if state.Backslash? {
        Append(Backslashes(state.count));
      }
    }

    method JoinToken() returns (s: string)
      ensures s == Concat(token)
    {
      s := "";
      for i := 0 to |token|
        invariant s == Concat(token[..i])
      {
        assert token[..i + 1][..i] == token[..i];
        s := s + token[i];
      }
      assert token[..|token|] == token;
    }
  }

  lemma TokensOnward(single: bool, pending: string)
    ensures var next := NextToken(single, pending);
            Arguments(Tokens(single, pending)) ==
              if !next.quoted && next.token == "" then [] else [next.token] + Arguments(Tokens(single, next.rest))
  {
  }

  /** `split`: the texts of all tokens. */
  method Split(unsplit: string, singleQuotesAllowed: bool) returns (args: seq<string>)
    ensures args == Arguments(Tokens(singleQuotesAllowed, unsplit))
  {
    var splitter := new Splitter(unsplit, singleQuotesAllowed);
    args := [];
    var more := true;
    while more
      invariant fresh(splitter) && fresh(splitter.source) && splitter.single == singleQuotesAllowed
      invariant Arguments(Tokens(singleQuotesAllowed, unsplit))
                == args + if more then Arguments(Tokens(singleQuotesAllowed, splitter.source.Pending())) else []
      decreases more, |splitter.source.Pending()|
    {
      ghost var pending := splitter.source.Pending();
      var quoted, token := splitter.GetToken();
      TokensOnward(singleQuotesAllowed, pending);
      if token.None? {
        more := false;
      } else {
        args := args + [token.value];
      }
    }
  }
}
