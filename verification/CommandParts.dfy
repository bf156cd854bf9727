/**
 How a command line is written and what it says, part by part: a description of splitting that
 knows no states. A word is any sequence of bare text, backslashes, escaped quotes and quoted text.
 */
module CommandParts {
  import opened CommandLines

  const WHITE: set<char> :=
    {' ', '\t', '\n', '\r', '\U{0B}', '\U{0C}', '\U{1C}', '\U{1D}', '\U{1E}', '\U{1F}', '\U{85}', '\U{A0}', '\U{1680}',
     '\U{2000}', '\U{2001}', '\U{2002}', '\U{2003}', '\U{2004}', '\U{2005}', '\U{2006}', '\U{2007}', '\U{2008}',
     '\U{2009}', '\U{200A}', '\U{2028}', '\U{2029}', '\U{202F}', '\U{205F}', '\U{3000}'}

  /** A quote is double, or single where that is allowed. */
  predicate Quotes(single: bool, c: char) {
    if single then c in {'\"', '\''} else c == '\"'
  }

  lemma SameCharacters(single: bool, c: char)
    ensures IsSpace(c) <==> c in WHITE
    ensures IsQuote(single, c) <==> Quotes(single, c)
  {
  }

  lemma {:induction false} BackslashesAre(n: nat, i: nat)
    requires i < n
    ensures Backslashes(n)[i] == '\\'
  {
    if i > 0 {
      BackslashesAre(n - 1, i - 1);
    }
  }

  datatype Part =
    | Bare(text: string)
    | Slashes(n: nat)
    | EscapedQuote(n: nat, quote: char)
    | Enclosed(n: nat, quote: char, text: string)

  /** Twice as many backslashes before a quote, and one more to escape it. */
  function Written(p: Part): string {
    match p
    case Bare(text) => text
    case Slashes(n) => Backslashes(n)
    case EscapedQuote(n, quote) => Backslashes(2 * n + 1) + [quote]
    case Enclosed(n, quote, text) => Backslashes(2 * n) + ([quote] + (text + [quote]))
  }

  function Said(p: Part): string {
    match p
    case Bare(text) => text
    case Slashes(n) => Backslashes(n)
    case EscapedQuote(n, quote) => Backslashes(n) + [quote]
    case Enclosed(n, quote, text) => Backslashes(n) + text
  }

  /** Bare text has no quotes, backslashes and white space, quoted text neither its quote nor backslashes. */
  ghost predicate Fits(single: bool, p: Part) {
    match p
    case Bare(text) => text != "" && forall i | 0 <= i < |text| :: text[i] != '\\' && !Quotes(single, text[i]) && text[i] !in WHITE
    case Slashes(n) => n > 0
    case EscapedQuote(_, quote) => Quotes(single, quote)
    case Enclosed(_, quote, text) => Quotes(single, quote) && forall i | 0 <= i < |text| :: text[i] != '\\' && text[i] != quote
  }

  /** Backslashes that stand for themselves are followed by bare text or nothing. */
  ghost predicate FitTogether(single: bool, parts: seq<Part>) {
    && (forall p | p in parts :: Fits(single, p))
    && forall i | 0 <= i < |parts| - 1 :: parts[i].Slashes? ==> parts[i + 1].Bare?
  }

  function Line(parts: seq<Part>): string {
    if |parts| == 0 then "" else Written(parts[0]) + Line(parts[1..])
  }

  function Text(parts: seq<Part>): string {
    if |parts| == 0 then "" else Said(parts[0]) + Text(parts[1..])
  }

  /** A word is quoted if quoted text comes before any bare text. */
  predicate BeginsQuoted(parts: seq<Part>) {
    |parts| > 0 && (parts[0].Enclosed? || (!parts[0].Bare? && BeginsQuoted(parts[1..])))
  }

  /** Nothing, or white space and anything. */
  ghost predicate Ends(tail: string) {
    tail == "" || tail[0] in WHITE
  }

  function AfterGap(tail: string): string {
    if tail == "" then "" else tail[1..]
  }

  // ---------------------------------------------------------------------------------
  // One part

  lemma {:induction false} BareScans(single: bool, mode: Mode, token: string, quoted: bool, text: string, more: string)
    requires mode == InWord || (mode == Blank && text != "")
    requires forall i | 0 <= i < |text| :: text[i] != '\\' && !Quotes(single, text[i]) && text[i] !in WHITE
    ensures Scan(single, mode, token, quoted, text + more) == Scan(single, InWord, token + text, quoted, more)
    decreases |text|
  {
    if text == "" {
      assert text + more == more && token + text == token;
    } else {
      SameCharacters(single, text[0]);
      assert (text + more)[1..] == text[1..] + more;
      assert token + [text[0]] + text[1..] == token + text;
      BareScans(single, InWord, token + [text[0]], quoted, text[1..], more);
    }
  }

  lemma {:induction false} EnclosedScans(single: bool, quote: char, exit: Mode, token: string, quoted: bool, text: string, more: string)
    requires quote != '\\' && forall i | 0 <= i < |text| :: text[i] != '\\' && text[i] != quote
    ensures Scan(single, InQuotes(quote, exit), token, quoted, text + ([quote] + more))
            == Scan(single, exit, token + text, quoted, more)
    decreases |text|
  {
    if text == "" {
      assert text + ([quote] + more) == [quote] + more && ([quote] + more)[1..] == more;
      assert token + text == token;
    } else {
      assert (text + ([quote] + more))[1..] == text[1..] + ([quote] + more);
      assert token + [text[0]] + text[1..] == token + text;
      EnclosedScans(single, quote, exit, token + [text[0]], quoted, text[1..], more);
    }
  }

  lemma OpeningScans(single: bool, mode: Mode, token: string, quoted: bool, n: nat, quote: char, rest: string)
    requires (mode == Blank || mode == InWord) && Quotes(single, quote)
    ensures Scan(single, mode, token, quoted, Backslashes(2 * n) + ([quote] + rest))
            == Scan(single, InQuotes(quote, mode), token + Backslashes(n), quoted || mode == Blank, rest)
  {
    SameCharacters(single, quote);
    var opening := [quote] + rest;
    assert opening[1..] == rest;
    if n == 0 {
      assert Backslashes(0) + opening == opening && token + Backslashes(0) == token;
    } else {
      ScanRun(single, mode, token, quoted, 2 * n, opening);
    }
  }

  lemma SlashesScan(single: bool, mode: Mode, token: string, quoted: bool, n: nat, more: string)
    requires n > 0 && (more == "" || (more[0] != '\\' && !Quotes(single, more[0])))
    ensures Scan(single, mode, token, quoted, Backslashes(n) + more) == Scan(single, mode, token + Backslashes(n), quoted, more)
  {
    if more == "" {
      BackslashesAtEnd(single, mode, token, quoted, n);
      assert Backslashes(n) + more == Backslashes(n);
    } else {
      SameCharacters(single, more[0]);
      ScanRun(single, mode, token, quoted, n, more);
    }
  }

  lemma EscapedQuoteScans(single: bool, mode: Mode, token: string, quoted: bool, n: nat, quote: char, more: string)
    requires Quotes(single, quote)
    ensures Scan(single, mode, token, quoted, (Backslashes(2 * n + 1) + [quote]) + more)
            == Scan(single, mode, token + (Backslashes(n) + [quote]), quoted, more)
  {
    SameCharacters(single, quote);
    Shift(Backslashes(2 * n + 1), [quote], more);
    Shift(token, Backslashes(n), [quote]);
    var k, after := 2 * n + 1, [quote] + more;
    assert k % 2 == 1 && k / 2 == n && after[0] == quote && after[1..] == more;
    ScanRun(single, mode, token, quoted, k, after);
  }

  lemma QuotedScans(single: bool, mode: Mode, token: string, quoted: bool, n: nat, quote: char, text: string, more: string)
    requires (mode == Blank || mode == InWord) && Fits(single, Enclosed(n, quote, text))
    ensures Scan(single, mode, token, quoted, (Backslashes(2 * n) + ([quote] + (text + [quote]))) + more)
            == Scan(single, mode, token + (Backslashes(n) + text), quoted || mode == Blank, more)
  {
    var rest := text + ([quote] + more);
    assert (Backslashes(2 * n) + ([quote] + (text + [quote]))) + more == Backslashes(2 * n) + ([quote] + rest);
    OpeningScans(single, mode, token, quoted, n, quote, rest);
    EnclosedScans(single, quote, mode, token + Backslashes(n), quoted || mode == Blank, text, more);
    Shift(token, Backslashes(n), text);
  }

  /** Where a part ends and how far it got. */
  lemma PartScans(single: bool, mode: Mode, token: string, quoted: bool, p: Part, more: string)
    requires (mode == Blank || mode == InWord) && Fits(single, p)
    requires p.Slashes? ==> more == "" || (more[0] != '\\' && !Quotes(single, more[0]))
    ensures Scan(single, mode, token, quoted, Written(p) + more)
            == Scan(single, ModeAfter(p, mode), token + Said(p), QuotedAfter(p, mode, quoted), more)
  {
    match p
    case Bare(text) => BareScans(single, mode, token, quoted, text, more);
    case Slashes(n) => SlashesScan(single, mode, token, quoted, n, more);
    case EscapedQuote(n, quote) => EscapedQuoteScans(single, mode, token, quoted, n, quote, more);
    case Enclosed(n, quote, text) => QuotedScans(single, mode, token, quoted, n, quote, text, more);
  }

  ghost function ModeAfter(p: Part, mode: Mode): Mode {
    if p.Bare? then InWord else mode
  }

  ghost predicate QuotedAfter(p: Part, mode: Mode, quoted: bool) {
    quoted || (p.Enclosed? && mode == Blank)
  }

  lemma BackslashesAtEnd(single: bool, mode: Mode, token: string, quoted: bool, n: nat)
    requires n > 0
    ensures Scan(single, mode, token, quoted, Backslashes(n)) == Scan(single, mode, token + Backslashes(n), quoted, "")
  {
    RunOfBackslashes(n, "");
    assert Backslashes(n) + "" == Backslashes(n);
    assert Backslashes(n)[n..] == "";
  }

  // ---------------------------------------------------------------------------------
  // A word, and words

  lemma {:induction false} PartsScan(single: bool, mode: Mode, token: string, quoted: bool, parts: seq<Part>, tail: string)
    requires (mode == Blank || mode == InWord) && FitTogether(single, parts) && Ends(tail)
    requires mode == Blank && parts == [] ==> token != "" || quoted
    ensures Scan(single, mode, token, quoted, Line(parts) + tail)
            == Scanned(quoted || (mode == Blank && BeginsQuoted(parts)), token + Text(parts), AfterGap(tail))
    decreases |parts|
  {
    if |parts| == 0 {
      assert Line(parts) + tail == tail && token + Text(parts) == token;
      if tail != "" {
        SameCharacters(single, tail[0]);
      }
    } else {
      var p, more := parts[0], Line(parts[1..]) + tail;
      assert p in parts;
      assert Line(parts) + tail == Written(p) + more;
      Follows(single, parts, tail);
      PartScans(single, mode, token, quoted, p, more);
      RestFits(single, parts);
      SomethingSaid(single, p);
      PartsScan(single, ModeAfter(p, mode), token + Said(p), QuotedAfter(p, mode, quoted), parts[1..], tail);
      Shift(token, Said(p), Text(parts[1..]));
    }
  }

  lemma RestFits(single: bool, parts: seq<Part>)
    requires FitTogether(single, parts) && |parts| > 0
    ensures FitTogether(single, parts[1..])
  {
    forall i | 0 <= i < |parts[1..]| - 1 ensures parts[1..][i].Slashes? ==> parts[1..][i + 1].Bare? {
      var next := i + 1;
      assert parts[1..][i] == parts[next];
    }
  }

  /** After backslashes that stand for themselves comes no quote and no other backslash. */
  lemma Follows(single: bool, parts: seq<Part>, tail: string)
    requires FitTogether(single, parts) && |parts| > 0 && Ends(tail)
    ensures var more := Line(parts[1..]) + tail;
            parts[0].Slashes? ==> more == "" || (more[0] != '\\' && !Quotes(single, more[0]))
  {
    if parts[0].Slashes? && |parts| > 1 {
      assert parts[1].Bare? && parts[1] in parts && Fits(single, parts[1]);
      assert parts[1..][0] == parts[1];
      assert Line(parts[1..])[0] == parts[1].text[0];
    }
  }

  lemma SomethingSaid(single: bool, p: Part)
    requires Fits(single, p)
    ensures p.Enclosed? || Said(p) != ""
  {
  }

  /** Words with one white character after each but the last, which may be any. */
  function Lines(words: seq<seq<Part>>, gap: char): string {
    if |words| == 0 then ""
    else if |words| == 1 then Line(words[0])
    else Line(words[0]) + [gap] + Lines(words[1..], gap)
  }

  function Meanings(words: seq<seq<Part>>): seq<(bool, string)> {
    if |words| == 0 then [] else [(BeginsQuoted(words[0]), Text(words[0]))] + Meanings(words[1..])
  }

  /** The tokens of a command line are what its words say, and whether they begin quoted. */
  lemma {:induction false} WordsAreTokens(single: bool, words: seq<seq<Part>>, gap: char)
    requires gap in WHITE && forall w | w in words :: w != [] && FitTogether(single, w)
    ensures Tokens(single, Lines(words, gap)) == Meanings(words)
    decreases |words|
  {
    if |words| == 0 {
      assert Tokens(single, "") == [];
    } else {
      assert words[0] in words;
      var tail := if |words| == 1 then "" else [gap] + Lines(words[1..], gap);
      assert Lines(words, gap) == Line(words[0]) + tail;
      PartsScan(single, Blank, "", false, words[0], tail);
      assert "" + Text(words[0]) == Text(words[0]);
      assert AfterGap(tail) == Lines(words[1..], gap);
      WordSaysSomething(single, words[0]);
      assert forall w | w in words[1..] :: w in words;
      WordsAreTokens(single, words[1..], gap);
    }
  }

  lemma {:induction false} WordSaysSomething(single: bool, parts: seq<Part>)
    requires parts != [] && FitTogether(single, parts)
    ensures BeginsQuoted(parts) || Text(parts) != ""
  {
    assert parts[0] in parts;
    SomethingSaid(single, parts[0]);
  }
}
