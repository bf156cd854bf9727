/**
 What splitting a command line means: backslashes are taken run by run, without looking
 ahead and putting back. Every argument list has a command line that splits into it.
 */
module CommandLines {
  /** White space as the regular expression `\s` has it for Unicode text. */
  predicate IsSpace(c: char) {
    var n := c as int;
    || 9 <= n <= 13 || 28 <= n <= 32 || n in {0x85, 0xA0, 0x1680, 0x2028, 0x2029, 0x202F, 0x205F, 0x3000}
    || 0x2000 <= n <= 0x200A
  }

  predicate IsQuote(single: bool, c: char) {
    c == '\"' || (single && c == '\'')
  }

  /** What a character is part of; inside quotes, what goes on after them. */
  datatype Mode = Blank | InWord | InQuotes(quote: char, exit: Mode)

  /** The number of backslashes at the beginning. */
  function Run(s: string): (n: nat)
    ensures n <= |s| && (n < |s| ==> s[n] != '\\')
  {
    if |s| > 0 && s[0] == '\\' then 1 + Run(s[1..]) else 0
  }

  function Backslashes(n: nat): (s: string)
    ensures |s| == n
  {
    if n == 0 then "" else ['\\'] + Backslashes(n - 1)
  }

  lemma {:induction false} RunOfBackslashes(n: nat, s: string)
    ensures Run(Backslashes(n) + s) == n + Run(s)
    ensures (Backslashes(n) + s)[n + Run(s)..] == s[Run(s)..]
  {
    if n > 0 {
      RunOfBackslashes(n - 1, s);
      assert (Backslashes(n) + s)[1..] == Backslashes(n - 1) + s;
    } else {
      assert Backslashes(0) + s == s;
    }
  }

  /** A token, whether it began with a quote, and what is left after it. */
  datatype Scanned = Scanned(quoted: bool, token: string, rest: string)

  /**
   The rest of a token of which `token` has been read. Of 2N or 2N+1 backslashes before a
   quote N are taken, and the odd one takes the quote along; other backslashes stand for
   themselves. White space outside quotes ends a token that has begun.
   */
  function Scan(single: bool, mode: Mode, token: string, quoted: bool, input: string): (r: Scanned)
    ensures |r.rest| <= |input| && (input != "" ==> |r.rest| < |input|)
    decreases |input|
  {
    if |input| == 0 then Scanned(quoted, token, "")
    else if input[0] == '\\' then
      var n := Run(input);
      var after := input[n..];
      if |after| > 0 && IsQuote(single, after[0]) then
        if n % 2 == 1 then Scan(single, mode, token + Backslashes(n / 2) + [after[0]], quoted, after[1..])
        else Scan(single, mode, token + Backslashes(n / 2), quoted, after)
      else Scan(single, mode, token + Backslashes(n), quoted, after)
    else
      var c, after := input[0], input[1..];
      match mode
      case Blank =>
        if IsSpace(c) then
          if token != "" || quoted then Scanned(quoted, token, after) else Scan(single, Blank, token, quoted, after)
        else if IsQuote(single, c) then Scan(single, InQuotes(c, Blank), token, true, after)
        else Scan(single, InWord, token + [c], quoted, after)
      case InWord =>
        if IsSpace(c) then Scanned(quoted, token, after)
        else if IsQuote(single, c) then Scan(single, InQuotes(c, InWord), token, quoted, after)
        else Scan(single, InWord, token + [c], quoted, after)
      case InQuotes(quote, exit) =>
        if c == quote then Scan(single, exit, token, quoted, after)
        else Scan(single, mode, token + [c], quoted, after)
  }

  function NextToken(single: bool, input: string): Scanned {
    Scan(single, Blank, "", false, input)
  }

  /** All tokens of a command line, each with whether it began with a quote. */
  function Tokens(single: bool, input: string): seq<(bool, string)>
    decreases |input|
  {
    var next := NextToken(single, input);
    if !next.quoted && next.token == "" then []
    else [(next.quoted, next.token)] + Tokens(single, next.rest)
  }

  /** A word has characters, and quotes that open a token mark it as quoted. */
  ghost predicate Begun(mode: Mode, token: string, quoted: bool) {
    match mode
    case Blank => true
    case InWord => token != ""
    case InQuotes(_, exit) => (exit == Blank && quoted) || (exit == InWord && token != "")
  }

  /** There is no token only if there is nothing left: no input is dropped. */
  lemma {:induction false} NoTokenMeansNoInput(single: bool, mode: Mode, token: string, quoted: bool, input: string)
    requires Begun(mode, token, quoted)
    ensures var r := Scan(single, mode, token, quoted, input); !r.quoted && r.token == "" ==> r.rest == ""
    ensures var r := Scan(single, mode, token, quoted, input); |token| <= |r.token| && (quoted ==> r.quoted)
    decreases |input|
  {
    if |input| > 0 {
      if input[0] == '\\' {
        var n := Run(input);
        var after := input[n..];
        if |after| > 0 && IsQuote(single, after[0]) {
          if n % 2 == 1 {
            NoTokenMeansNoInput(single, mode, token + Backslashes(n / 2) + [after[0]], quoted, after[1..]);
          } else {
            NoTokenMeansNoInput(single, mode, token + Backslashes(n / 2), quoted, after);
          }
        } else {
          NoTokenMeansNoInput(single, mode, token + Backslashes(n), quoted, after);
        }
      } else {
        var c, after := input[0], input[1..];
        match mode
        case Blank =>
          if IsSpace(c) {
            NoTokenMeansNoInput(single, Blank, token, quoted, after);
          } else if IsQuote(single, c) {
            NoTokenMeansNoInput(single, InQuotes(c, Blank), token, true, after);
          } else {
            NoTokenMeansNoInput(single, InWord, token + [c], quoted, after);
          }
        case InWord =>
          if IsQuote(single, c) {
            NoTokenMeansNoInput(single, InQuotes(c, InWord), token, quoted, after);
          } else if !IsSpace(c) {
            NoTokenMeansNoInput(single, InWord, token + [c], quoted, after);
          }
        case InQuotes(quote, exit) =>
          if c == quote {
            NoTokenMeansNoInput(single, exit, token, quoted, after);
          } else {
            NoTokenMeansNoInput(single, mode, token + [c], quoted, after);
          }
      }
    }
  }

  // ---------------------------------------------------------------------------------
  // Quoting

  /** The text of an argument as it has to stand between double quotes. */
  function Escape(single: bool, arg: string): string
    decreases |arg|
  {
    if |arg| == 0 then ""
    else if arg[0] == '\\' then
      var n := Run(arg);
      var after := arg[n..];
      if |after| == 0 then Backslashes(2 * n)
      else if after[0] == '\"' then Backslashes(2 * n + 1) + ['\"'] + Escape(single, after[1..])
      else if IsQuote(single, after[0]) then Backslashes(2 * n) + [after[0]] + Escape(single, after[1..])
      else Backslashes(n) + Escape(single, after)
    else if arg[0] == '\"' then Backslashes(1) + ['\"'] + Escape(single, arg[1..])
    else [arg[0]] + Escape(single, arg[1..])
  }

  function Quote(single: bool, arg: string): string {
    ['\"'] + Escape(single, arg) + ['\"']
  }

  /** The quoted arguments, separated by spaces. */
  function Join(single: bool, args: seq<string>): string {
    if |args| == 0 then ""
    else if |args| == 1 then Quote(single, args[0])
    else Quote(single, args[0]) + [' '] + Join(single, args[1..])
  }

  /** A run of backslashes and what comes after it. */
  lemma ScanRun(single: bool, mode: Mode, token: string, quoted: bool, n: nat, after: string)
    requires n > 0 && |after| > 0 && after[0] != '\\'
    ensures Scan(single, mode, token, quoted, Backslashes(n) + after) ==
            if IsQuote(single, after[0]) then
              if n % 2 == 1 then Scan(single, mode, token + Backslashes(n / 2) + [after[0]], quoted, after[1..])
              else Scan(single, mode, token + Backslashes(n / 2), quoted, after)
            else Scan(single, mode, token + Backslashes(n), quoted, after)
  {
    RunOfBackslashes(n, after);
    var input := Backslashes(n) + after;
    assert Run(input) == n && input[n..] == after;
    assert input[0] == '\\';
  }

  lemma {:induction false} RunIsBackslashes(s: string)
    ensures s[..Run(s)] == Backslashes(Run(s))
  {
    if |s| > 0 && s[0] == '\\' {
      RunIsBackslashes(s[1..]);
      assert s[..Run(s)] == [s[0]] + s[1..][..Run(s[1..])];
    }
  }

  const QUOTED := InQuotes('\"', Blank)

  lemma ScanPlain(single: bool, token: string, c: char, after: string)
    requires c != '\\' && c != '\"'
    ensures Scan(single, QUOTED, token, true, [c] + after) == Scan(single, QUOTED, token + [c], true, after)
  {
    assert ([c] + after)[1..] == after;
  }

  lemma Shift(token: string, raw: string, rest: string)
    ensures (token + raw) + rest == token + (raw + rest)
  {
  }

  /**
   An escaped piece: `raw` at the beginning of an argument stands as `escaped`, however the
   text goes on, unless `raw` is bare backslashes and would run into more of them or a quote.
   */
  datatype Piece = Piece(raw: string, escaped: string)

  function FirstPiece(single: bool, arg: string): Piece
    requires |arg| > 0
  {
    if arg[0] != '\\' then Piece([arg[0]], if arg[0] == '\"' then Backslashes(1) + ['\"'] else [arg[0]])
    else
      var n := Run(arg);
      var after := arg[n..];
      if |after| == 0 then Piece(Backslashes(n), Backslashes(2 * n))
      else if after[0] == '\"' then Piece(Backslashes(n) + ['\"'], Backslashes(2 * n + 1) + ['\"'])
      else if IsQuote(single, after[0]) then Piece(Backslashes(n) + [after[0]], Backslashes(2 * n) + [after[0]])
      else Piece(Backslashes(n), Backslashes(n))
  }

  lemma FirstPieceSplits(single: bool, arg: string)
    requires |arg| > 0
    ensures var p := FirstPiece(single, arg);
            && 0 < |p.raw| <= |arg| && arg == p.raw + arg[|p.raw|..]
            && Escape(single, arg) == p.escaped + Escape(single, arg[|p.raw|..])
  {
    RunIsBackslashes(arg);
    var p := FirstPiece(single, arg);
    var n := Run(arg);
    if arg[0] == '\\' && |arg[n..]| > 0 && IsQuote(single, arg[n]) {
      assert arg[|p.raw|..] == arg[n..][1..];
    }
  }

  /** What may follow the piece: the rest of the escaped text and the closing quote. */
  ghost predicate MayFollow(single: bool, arg: string, more: string)
    requires |arg| > 0
  {
    var p := FirstPiece(single, arg);
    |more| > 0 &&
    (arg[0] == '\\' ==>
       && (|p.raw| == |arg| == Run(arg) ==> more[0] == '\"')
       && (Run(arg) < |arg| && !IsQuote(single, arg[Run(arg)]) ==> more[0] == arg[Run(arg)]))
  }

  lemma PieceScans(single: bool, token: string, arg: string, more: string)
    requires |arg| > 0 && MayFollow(single, arg, more)
    ensures var p := FirstPiece(single, arg);
            Scan(single, QUOTED, token, true, p.escaped + more) == Scan(single, QUOTED, token + p.raw, true, more)
  {
    if arg[0] == '\\' {
      RunPieceScans(single, token, arg, more);
    } else if arg[0] == '\"' {
      QuotePieceScans(single, token, 0, '\"', more);
      assert Backslashes(0) + ['\"'] == ['\"'];
    } else {
      ScanPlain(single, token, arg[0], more);
    }
  }

  lemma RunPieceScans(single: bool, token: string, arg: string, more: string)
    requires |arg| > 0 && MayFollow(single, arg, more) && arg[0] == '\\'
    ensures var p := FirstPiece(single, arg);
            Scan(single, QUOTED, token, true, p.escaped + more) == Scan(single, QUOTED, token + p.raw, true, more)
  {
    var n := Run(arg);
    if n < |arg| && IsQuote(single, arg[n]) {
      QuotePieceScans(single, token, n, arg[n], more);
    } else if n == |arg| {
      DoubledRunScans(single, token, n, more);
    } else {
      BareRunScans(single, token, n, more);
    }
  }

  /** Bare backslashes are doubled before the closing quote. */
  lemma DoubledRunScans(single: bool, token: string, n: nat, more: string)
    requires n > 0 && |more| > 0 && more[0] == '\"'
    ensures Scan(single, QUOTED, token, true, Backslashes(2 * n) + more)
            == Scan(single, QUOTED, token + Backslashes(n), true, more)
  {
    ScanRun(single, QUOTED, token, true, 2 * n, more);
  }

  lemma BareRunScans(single: bool, token: string, n: nat, more: string)
    requires n > 0 && |more| > 0 && more[0] != '\\' && !IsQuote(single, more[0])
    ensures Scan(single, QUOTED, token, true, Backslashes(n) + more)
            == Scan(single, QUOTED, token + Backslashes(n), true, more)
  {
    ScanRun(single, QUOTED, token, true, n, more);
  }

  lemma QuotePieceScans(single: bool, token: string, n: nat, quote: char, more: string)
    requires IsQuote(single, quote) && (n == 0 ==> quote == '\"')
    ensures var escaped := Backslashes(if quote == '\"' then 2 * n + 1 else 2 * n) + [quote];
            Scan(single, QUOTED, token, true, escaped + more)
            == Scan(single, QUOTED, token + (Backslashes(n) + [quote]), true, more)
  {
    var k := if quote == '\"' then 2 * n + 1 else 2 * n;
    Shift(Backslashes(k), [quote], more);
    Shift(token, Backslashes(n), [quote]);
    ScanRun(single, QUOTED, token, true, k, [quote] + more);
    assert ([quote] + more)[1..] == more;
    if quote != '\"' {
      ScanPlain(single, token + Backslashes(n), quote, more);
    }
  }

  /** An escaped text, up to the closing quote, is read as the text. */
  lemma {:induction false} EscapeScans(single: bool, token: string, arg: string, tail: string)
    ensures Scan(single, QUOTED, token, true, Escape(single, arg) + (['\"'] + tail)) == Scan(single, Blank, token + arg, true, tail)
    decreases |arg|
  {
    var close := ['\"'] + tail;
    if |arg| == 0 {
      assert Escape(single, arg) + close == close && close[1..] == tail;
      assert token + arg == token;
    } else {
      var p := FirstPiece(single, arg);
      FirstPieceSplits(single, arg);
      var rest := arg[|p.raw|..];
      var more := Escape(single, rest) + close;
      Shift(p.escaped, Escape(single, rest), close);
      MoreFollows(single, arg, close);
      PieceScans(single, token, arg, more);
      EscapeScans(single, token + p.raw, rest, tail);
      Shift(token, p.raw, rest);
    }
  }

  lemma MoreFollows(single: bool, arg: string, close: string)
    requires |arg| > 0 && |close| > 0 && close[0] == '\"'
    ensures var p := FirstPiece(single, arg);
            |p.raw| <= |arg| && MayFollow(single, arg, Escape(single, arg[|p.raw|..]) + close)
  {
    FirstPieceSplits(single, arg);
    var p := FirstPiece(single, arg);
    var rest := arg[|p.raw|..];
    if arg[0] == '\\' && Run(arg) < |arg| && !IsQuote(single, arg[Run(arg)]) {
      assert rest[0] == arg[Run(arg)];
      assert Escape(single, rest)[0] == rest[0];
    }
  }

  ghost function AllQuoted(args: seq<string>): seq<(bool, string)> {
    if |args| == 0 then [] else [(true, args[0])] + AllQuoted(args[1..])
  }

  lemma FirstToken(single: bool, arg: string, tail: string)
    requires tail == "" || tail[0] == ' '
    ensures NextToken(single, Quote(single, arg) + tail) == Scanned(true, arg, if tail == "" then "" else tail[1..])
  {
    var inner := Escape(single, arg) + (['\"'] + tail);
    var line := ['\"'] + inner;
    assert Quote(single, arg) + tail == line;
    assert line[1..] == inner;
    EscapeScans(single, "", arg, tail);
    assert "" + arg == arg;
  }

  /** Whatever the arguments are, quoting and joining them can be undone by splitting. */
  lemma {:induction false} SplitUndoesJoin(single: bool, args: seq<string>)
    ensures Tokens(single, Join(single, args)) == AllQuoted(args)
    decreases |args|
  {
    if |args| == 1 {
      FirstToken(single, args[0], "");
      assert Quote(single, args[0]) + "" == Quote(single, args[0]);
      assert args[1..] == [] && Tokens(single, "") == [];
    } else if |args| > 1 {
      var tail := [' '] + Join(single, args[1..]);
      FirstToken(single, args[0], tail);
      assert Quote(single, args[0]) + tail == Join(single, args);
      assert tail[1..] == Join(single, args[1..]);
      SplitUndoesJoin(single, args[1..]);
    }
  }

  /** The arguments alone. */
  function Arguments(tokens: seq<(bool, string)>): (r: seq<string>)
    ensures |r| == |tokens|
  {
    if |tokens| == 0 then [] else [tokens[0].1] + Arguments(tokens[1..])
  }

  lemma {:induction false} ArgumentsAreRecovered(single: bool, args: seq<string>)
    ensures Arguments(Tokens(single, Join(single, args))) == args
  {
    SplitUndoesJoin(single, args);
    ArgumentsOfQuoted(args);
  }

  lemma {:induction false} ArgumentsOfQuoted(args: seq<string>)
    ensures Arguments(AllQuoted(args)) == args
  {
    if |args| > 0 {
      ArgumentsOfQuoted(args[1..]);
    }
  }

  // ---------------------------------------------------------------------------------
  // Words without quotes

  ghost predicate PlainWord(single: bool, word: string) {
    word != "" && forall i | 0 <= i < |word| :: word[i] != '\\' && !IsQuote(single, word[i]) && !IsSpace(word[i])
  }

  function Spaced(words: seq<string>): string {
    if |words| == 0 then "" else [' '] + words[0] + Spaced(words[1..])
  }

  function Unquoted(words: seq<string>): seq<(bool, string)> {
    if |words| == 0 then [] else [(false, words[0])] + Unquoted(words[1..])
  }

  /** A word is read up to the space after it. */
  lemma {:induction false} WordScans(single: bool, token: string, word: string, tail: string)
    requires token != "" || PlainWord(single, word)
    requires word == "" || PlainWord(single, word)
    requires tail == "" || tail[0] == ' '
    ensures Scan(single, if token == "" then Blank else InWord, token, false, word + tail)
            == Scanned(false, token + word, if tail == "" then "" else tail[1..])
    decreases |word|
  {
    if word == "" {
      assert word + tail == tail && token + word == token;
    } else {
      assert (word + tail)[1..] == word[1..] + tail;
      assert token + [word[0]] + word[1..] == token + word;
      WordScans(single, token + [word[0]], word[1..], tail);
    }
  }

  /** Plain words separated by spaces are the tokens, none of them quoted. */
  lemma {:induction false} PlainWordsAreTokens(single: bool, words: seq<string>)
    requires forall w | w in words :: PlainWord(single, w)
    ensures Tokens(single, Spaced(words)) == Unquoted(words)
    decreases |words|
  {
    if |words| > 0 {
      var tail := Spaced(words[1..]);
      assert Spaced(words) == [' '] + (words[0] + tail);
      assert Spaced(words)[1..] == words[0] + tail;
      WordScans(single, "", words[0], tail);
      assert "" + words[0] == words[0];
      PlainWordsAreTokens(single, words[1..]);
      TokensAfterSpace(single, words[1..]);
    } else {
      assert Tokens(single, "") == [];
    }
  }

  /** The space between two words may belong to the one before or the one after. */
  lemma {:induction false} TokensAfterSpace(single: bool, words: seq<string>)
    ensures Spaced(words) != "" ==> Tokens(single, Spaced(words)) == Tokens(single, Spaced(words)[1..])
  {
    if |words| > 0 {
      var rest := Spaced(words)[1..];
      assert Spaced(words)[0] == ' ';
      assert NextToken(single, Spaced(words)) == NextToken(single, rest);
    }
  }
}
