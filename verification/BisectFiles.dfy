/** The file that a bisection is kept in: a line for each verdict. */
module BisectFiles {
  import opened Wrappers

  /** A revision id and a status, as they are written down. */
  datatype Entry = Entry(id: string, status: string)

  predicate IsBlank(c: char) {
    c in {' ', '\t', '\n', '\r'} || c as int == 11 || c as int == 12
  }

  predicate IsWord(s: string) {
    |s| > 0 && forall i | 0 <= i < |s| :: !IsBlank(s[i])
  }

  // ---------------------------------------------------------------------------------
  // Lines and fields

  /** The position of the first line end, or the length. */
  function LineEnd(text: string): (n: nat)
    ensures n <= |text| && (n < |text| ==> text[n] == '\n') && forall i | 0 <= i < n :: text[i] != '\n'
  {
    if |text| == 0 || text[0] == '\n' then 0 else 1 + LineEnd(text[1..])
  }

  function Lines(text: string): seq<string> {
    if |text| == 0 then []
    else
      var n := LineEnd(text);
      [text[..n]] + if n < |text| then Lines(text[n + 1..]) else []
  }

  /** The position of the first blank, or the length. */
  function WordEnd(s: string): (n: nat)
    ensures n <= |s| && (n < |s| ==> IsBlank(s[n])) && forall i | 0 <= i < n :: !IsBlank(s[i])
  {
    if |s| == 0 || IsBlank(s[0]) then 0 else 1 + WordEnd(s[1..])
  }

  /** The words of a line, however many blanks are between them. */
  function Fields(s: string): seq<string>
    decreases |s|
  {
    if |s| == 0 then []
    else if IsBlank(s[0]) then Fields(s[1..])
    else [s[..WordEnd(s)]] + Fields(s[WordEnd(s)..])
  }

  lemma WordEndUnique(s: string, n: nat)
    requires n <= |s| && (n < |s| ==> IsBlank(s[n])) && forall i | 0 <= i < n :: !IsBlank(s[i])
    ensures WordEnd(s) == n
  {
  }

  lemma LineEndUnique(text: string, n: nat)
    requires n <= |text| && (n < |text| ==> text[n] == '\n') && forall i | 0 <= i < n :: text[i] != '\n'
    ensures LineEnd(text) == n
  {
  }

  // ---------------------------------------------------------------------------------
  // Saving and loading

  function LineOf(e: Entry): string {
    e.id + " " + e.status + "\n"
  }

  function Contents(items: seq<Entry>): string {
    if |items| == 0 then "" else Contents(items[..|items| - 1]) + LineOf(items[|items| - 1])
  }

  /** What the lines say, or the first that does not hold two words. */
  function Entries(lines: seq<string>): Result<seq<Entry>, string> {
    if |lines| == 0 then Success([])
    else
      match Entries(lines[..|lines| - 1])
      case Failure(line) => Failure(line)
      case Success(entries) =>
        var fields := Fields(lines[|lines| - 1]);
        if |fields| == 2 then Success(entries + [Entry(fields[0], fields[1])]) else Failure(lines[|lines| - 1])
  }

  /** All lines have two words, and these are the entries; or a first one has not, and it is reported. */
  lemma {:induction false} EntriesAre(lines: seq<string>)
    ensures match Entries(lines)
            case Success(items) =>
              && |items| == |lines|
              && forall i | 0 <= i < |lines| :: Fields(lines[i]) == [items[i].id, items[i].status]
            case Failure(line) =>
              exists i {:trigger lines[i]} ::
                && 0 <= i < |lines| && lines[i] == line && |Fields(line)| != 2
                && forall j {:trigger lines[j]} | 0 <= j < i :: |Fields(lines[j])| == 2
  {
    if |lines| > 0 {
      var before, last := lines[..|lines| - 1], |lines| - 1;
      EntriesAre(before);
      match Entries(before)
      case Failure(line) =>
        var i :| 0 <= i < |before| && before[i] == line && |Fields(line)| != 2
              && forall j {:trigger before[j]} | 0 <= j < i :: |Fields(before[j])| == 2;
        assert lines[i] == line;
        forall j | 0 <= j < i ensures |Fields(lines[j])| == 2 {
          assert before[j] == lines[j];
        }
      case Success(items) =>
        forall j | 0 <= j < last ensures Fields(lines[j]) == [items[j].id, items[j].status] {
          assert before[j] == lines[j];
        }
    }
  }

  /** Words with a blank after each. */
  function Spread(words: seq<string>, blank: char): string {
    if |words| == 0 then "" else words[0] + ([blank] + Spread(words[1..], blank))
  }

  /** The words of a line are what stands between blanks. */
  lemma {:induction false} FieldsAre(words: seq<string>, blank: char)
    requires blank in {' ', '\t', '\n', '\r', '\U{0B}', '\U{0C}'}
    requires forall w | w in words :: w != "" && forall i | 0 <= i < |w| :: w[i] !in {' ', '\t', '\n', '\r', '\U{0B}', '\U{0C}'}
    ensures Fields(Spread(words, blank)) == words
  {
    if |words| > 0 {
      var word, more := words[0], [blank] + Spread(words[1..], blank);
      assert word in words;
      WordEndUnique(word + more, |word|);
      assert (word + more)[..|word|] == word && (word + more)[|word|..] == more;
      assert more[1..] == Spread(words[1..], blank);
      assert forall w | w in words[1..] :: w in words;
      FieldsAre(words[1..], blank);
    }
  }

  method Save(items: seq<Entry>) returns (contents: string)
    ensures contents == Contents(items)
  {
    contents := "";
    for i := 0 to |items|
      invariant contents == Contents(items[..i])
    {
      assert items[..i + 1][..i] == items[..i];
      contents := contents + LineOf(items[i]);
    }
    assert items[..|items|] == items;
  }

  method Load(text: string) returns (r: Result<seq<Entry>, string>)
    ensures r == Entries(Lines(text))
  {
    var lines := Lines(text);
    var items: seq<Entry> := [];
    for i := 0 to |lines|
      invariant Entries(lines[..i]) == Success(items)
    {
      assert lines[..i + 1][..i] == lines[..i];
      var fields := Fields(lines[i]);
      if |fields| != 2 {
        BadLine(lines, i);
        return Failure(lines[i]);
      }
      items := items + [Entry(fields[0], fields[1])];
    }
    assert lines[..|lines|] == lines;
    r := Success(items);
  }

  lemma {:induction false} BadLine(lines: seq<string>, i: nat)
    requires i < |lines| && Entries(lines[..i]).Success? && |Fields(lines[i])| != 2
    ensures Entries(lines) == Failure(lines[i])
    decreases |lines|
  {
    if i < |lines| - 1 {
      var init := lines[..|lines| - 1];
      assert init[..i] == lines[..i];
      BadLine(init, i);
    } else {
      assert lines[..|lines| - 1] == lines[..i];
    }
  }

  lemma FieldsOfLine(e: Entry)
    requires IsWord(e.id) && IsWord(e.status)
    ensures Fields(e.id + " " + e.status) == [e.id, e.status]
  {
    var line := e.id + " " + e.status;
    WordEndUnique(line, |e.id|);
    assert line[..|e.id|] == e.id && line[|e.id|..][1..] == e.status;
    WordEndUnique(e.status, |e.status|);
    assert e.status[..|e.status|] == e.status && e.status[|e.status|..] == "";
    assert Fields(e.status) == [e.status] + Fields("");
    assert Fields(line[|e.id|..]) == Fields(e.status);
  }

  lemma {:induction false} LinesAppend(text: string, line: string, tail: string)
    requires text == "" || text[|text| - 1] == '\n'
    requires tail == line + "\n" && forall i | 0 <= i < |line| :: line[i] != '\n'
    ensures Lines(text + tail) == Lines(text) + [line]
    decreases |text|
  {
    if text == "" {
      assert text + tail == tail;
      LinesOne(line, tail);
    } else {
      var n := LineEnd(text);
      SplitBefore(text, tail, n);
      LinesFirst(text, n);
      LinesFirst(text + tail, n);
      LinesAppend(text[n + 1..], line, tail);
      Regroup(text[..n], Lines(text[n + 1..]), line);
    }
  }

  lemma Regroup(first: string, more: seq<string>, last: string)
    ensures ([first] + more) + [last] == [first] + (more + [last])
  {
  }

  lemma LinesOne(line: string, tail: string)
    requires tail == line + "\n" && forall i | 0 <= i < |line| :: line[i] != '\n'
    ensures Lines(tail) == [line]
  {
    LinesFirst(tail, |line|);
    assert tail[..|line|] == line && tail[|line| + 1..] == "";
  }

  lemma SplitBefore(text: string, tail: string, n: nat)
    requires text != "" && text[|text| - 1] == '\n' && n == LineEnd(text)
    ensures n < |text| && text[n] == '\n' && (text[n + 1..] == "" || text[n + 1..][|text[n + 1..]| - 1] == '\n')
    ensures (text + tail)[..n] == text[..n] && (text + tail)[n] == '\n' && (text + tail)[n + 1..] == text[n + 1..] + tail
    ensures forall i | 0 <= i < n :: (text + tail)[i] != '\n'
  {
  }

  lemma LinesFirst(text: string, n: nat)
    requires n < |text| && text[n] == '\n' && forall i | 0 <= i < n :: text[i] != '\n'
    ensures Lines(text) == [text[..n]] + Lines(text[n + 1..])
  {
    LineEndUnique(text, n);
  }

  lemma LineIsOne(e: Entry)
    requires IsWord(e.id) && IsWord(e.status)
    ensures var line := e.id + " " + e.status;
            LineOf(e) == line + "\n" && forall i | 0 <= i < |line| :: line[i] != '\n'
  {
  }

  /** The lines of a saved log, without their ends. */
  function Written(items: seq<Entry>): (r: seq<string>)
    ensures |r| == |items| && forall i {:trigger r[i]} | 0 <= i < |r| :: r[i] == items[i].id + " " + items[i].status
  {
    if |items| == 0 then []
    else Written(items[..|items| - 1]) + [items[|items| - 1].id + " " + items[|items| - 1].status]
  }

  ghost predicate AllWords(items: seq<Entry>) {
    forall i {:trigger items[i]} | 0 <= i < |items| :: IsWord(items[i].id) && IsWord(items[i].status)
  }

  lemma {:induction false} LinesOfContents(items: seq<Entry>)
    requires AllWords(items)
    ensures Lines(Contents(items)) == Written(items)
  {
    if |items| > 0 {
      var init, e := items[..|items| - 1], items[|items| - 1];
      LinesOfContents(init);
      ContentsEnd(init);
      LineIsOne(e);
      LinesAppend(Contents(init), e.id + " " + e.status, LineOf(e));
    }
  }

  lemma {:induction false} EntriesPointwise(lines: seq<string>, items: seq<Entry>)
    requires |lines| == |items|
    requires forall i {:trigger lines[i]} | 0 <= i < |lines| :: Fields(lines[i]) == [items[i].id, items[i].status]
    ensures Entries(lines) == Success(items)
  {
    if |lines| > 0 {
      var last := |lines| - 1;
      EntriesPointwise(lines[..last], items[..last]);
      assert lines[last] == lines[last];
      assert items == items[..last] + [items[last]];
    }
  }

  /** A saved log is loaded as it was: ids and statuses are words. */
  lemma LoadUndoesSave(items: seq<Entry>)
    requires forall i {:trigger items[i]} | 0 <= i < |items| :: IsWord(items[i].id) && IsWord(items[i].status)
    ensures Entries(Lines(Contents(items))) == Success(items)
  {
    LinesOfContents(items);
    var lines := Written(items);
    forall i | 0 <= i < |items| ensures Fields(lines[i]) == [items[i].id, items[i].status] {
      FieldsOfLine(items[i]);
    }
    EntriesPointwise(lines, items);
  }

  lemma ContentsEnd(items: seq<Entry>)
    ensures Contents(items) == "" || Contents(items)[|Contents(items)| - 1] == '\n'
  {
  }
}
