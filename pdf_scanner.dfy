/**
  The PDF scanner: deriving a (name, date) record from one file, and
  visiting the files of a directory walk, routing each to one outcome and
  merging the accepted records into the result map.

  The PDF library is replaced by its observable results: loading a file
  either fails with an IOException or yields a Document, which reports
  whether it is encrypted and whether the text of its first page can be
  read. The directory walk is replaced by the sequence of files it visits.
*/
module PdfScanner {
  import opened Wrappers
  import opened JavaLib
  import opened Exceptions
  import opened Csv
  import opened Helper

  /** The marker of the line that carries the date. */
  const DateKey := "Eingang:"

  /** The suffix removed from a file name before the name is taken from it. */
  const FileSuffix := ".pdf"

  /** The literal part of the print stamp after the clock time. */
  const PrintStampTail := " Uhr (Druck:"

  // ---------------------------------------------------------------------
  // The name, from the file name
  // ---------------------------------------------------------------------

  /** The name carried by a file name without its suffix: the last two
      '_'-separated pieces joined by a space, or "" when split() yields
      fewer than two pieces. */
  function NameFromStem(stem: string): (name: string)
  {
    var parts := Split(stem, '_');
    if |parts| >= 2 then parts[|parts| - 2] + " " + parts[|parts| - 1] else ""
  }

  /** extractNameFromFileName: every ".pdf" is removed, then the name is
      taken from what is left. */
  function ExtractNameFromFileName(fileName: string): (name: string)
    ensures '_' !in name
    ensures name == "" || ' ' in name
  {
    NameFromStem(RemoveAll(fileName, FileSuffix))
  }

  /** A stem assembled from '_'-free pieces, the last one not empty, names
      the person after its last two pieces. */
  lemma NameFromParts(parts: seq<string>)
    requires |parts| >= 2
    requires forall i | 0 <= i < |parts| :: '_' !in parts[i]
    requires parts[|parts| - 1] != ""
    ensures NameFromStem(Join(parts, '_')) == parts[|parts| - 2] + " " + parts[|parts| - 1]
  {
    SplitJoin(parts, '_');
  }

  /** ".pdf" does not overlap itself. */
  lemma FileSuffixUnique()
    ensures FileSuffix != [] && forall k | 0 < k < |FileSuffix| :: FileSuffix[k] != FileSuffix[0]
  {
  }

  /** Removing ".pdf" from a stem without one and a final ".pdf" gives the
      stem back. */
  lemma SuffixRemoved(stem: string)
    requires !Occurs(stem, FileSuffix)
    ensures RemoveAll(stem + FileSuffix, FileSuffix) == stem
  {
    FileSuffixUnique();
    RemoveAllAppended(stem, FileSuffix);
  }

  /** The same for a whole file name: the pieces, joined by '_', then
      ".pdf". */
  lemma NameFromFileNameParts(parts: seq<string>)
    requires |parts| >= 2
    requires forall i | 0 <= i < |parts| :: '_' !in parts[i]
    requires parts[|parts| - 1] != ""
    requires !Occurs(Join(parts, '_'), FileSuffix)
    ensures ExtractNameFromFileName(Join(parts, '_') + FileSuffix)
            == parts[|parts| - 2] + " " + parts[|parts| - 1]
  {
    SuffixRemoved(Join(parts, '_'));
    NameFromParts(parts);
  }

  /** A stem without '_' is one piece, so it names nobody. */
  lemma NameWithoutSeparator(stem: string)
    requires '_' !in stem
    ensures NameFromStem(stem) == ""
  {
  }

  /** A string that does not hold the first character of the pattern does
      not hold the pattern. */
  lemma AbsentHead(s: string, pat: string)
    requires pat != [] && pat[0] !in s
    ensures !Occurs(s, pat)
  {
    forall j | 0 <= j <= |s| - |pat| ensures !StartsWith(s[j..], pat) {
      assert s[j..][..|pat|][0] == s[j] != pat[0];
    }
  }

  /** The file names the crawler expects, "<date>_<first name>_<last
      name>.pdf", name the person after the two name parts, dotted dates
      such as "01.02.2023" included, as long as no ".pdf" precedes the
      final one. */
  lemma DatedFileName(date: string, first: string, last: string)
    requires '_' !in date && '_' !in first && '_' !in last && last != ""
    requires !Occurs(date + "_" + first + "_" + last, FileSuffix)
    ensures ExtractNameFromFileName(date + "_" + first + "_" + last + FileSuffix) == first + " " + last
  {
    var parts := [date, first, last];
    assert Join(parts, '_') == date + "_" + first + "_" + last by {
      assert parts[1..] == [first, last] && parts[1..][1..] == [last];
      assert Join(parts[1..], '_') == first + "_" + last;
    }
    NameFromFileNameParts(parts);
  }

  /** "2023_Max_Mey.pdf", written as its pieces, names Max Mey. */
  lemma NameExample()
    ensures ExtractNameFromFileName("2023" + "_" + "Max" + "_" + "Mey" + FileSuffix) == "Max Mey"
  {
    var date, first, last := "2023", "Max", "Mey";
    assert '_' !in date && '_' !in first && '_' !in last && last != "";
    AbsentHead(date + "_" + first + "_" + last, FileSuffix);
    DatedFileName(date, first, last);
  }

  /** A file name without '_' names nobody, whatever else it holds
      ("report.pdf", "my.report.pdf", "notes.txt"). */
  lemma UndatedFileName(fileName: string)
    requires '_' !in fileName
    ensures ExtractNameFromFileName(fileName) == ""
  {
    RemoveAllKeepsAbsent(fileName, FileSuffix, '_');
    NameWithoutSeparator(RemoveAll(fileName, FileSuffix));
  }

  /** "_.pdf": split("_") yields no pieces at all, so no name either. */
  lemma SeparatorOnlyExample()
    ensures Split("_", '_') == []
    ensures NameFromStem("_") == ""
  {
    assert SplitOn("_", '_') == ["", ""] by {
      assert "_"[1..] == "";
    }
  }

  // ---------------------------------------------------------------------
  // The print stamp " H:MM Uhr (Druck:.*"
  // ---------------------------------------------------------------------

  predicate IsDigit(c: char) {
    '0' <= c <= '9'
  }

  predicate AllDigits(t: string) {
    forall i | 0 <= i < |t| :: IsDigit(t[i])
  }

  /** The characters Java's '.' does not match: line terminators. */
  predicate IsLineTerminator(c: char) {
    c == '\n' || c == '\r' || c == '\U{85}' || c == '\U{2028}' || c == '\U{2029}'
  }

  /** The n characters of s from i on are digits. */
  predicate DigitsAt(s: string, i: nat, n: nat)
    requires i + n <= |s|
  {
    forall k | i <= k < i + n :: IsDigit(s[k])
  }

  /** s holds PrintStampTail from i on. */
  predicate StampTailAt(s: string, i: nat)
    requires i + |PrintStampTail| <= |s|
  {
    forall k | 0 <= k < |PrintStampTail| :: s[i + k] == PrintStampTail[k]
  }

  /** s starts with " ", h digits, ":", m digits and " Uhr (Druck:". */
  predicate ClockFits(s: string, h: nat, m: nat) {
    && 2 + h + m + |PrintStampTail| <= |s|
    && s[0] == ' '
    && DigitsAt(s, 1, h)
    && s[1 + h] == ':'
    && DigitsAt(s, 2 + h, m)
    && StampTailAt(s, 2 + h + m)
  }

  /** The length of the fixed part " [0-9]?[0-9]:[0-9]?[0-9] Uhr (Druck:" of
      the pattern when it matches at the start of s, the alternatives of
      each optional digit tried in the regular-expression engine's order
      (greedy first). */
  function StampHead(s: string): (r: Option<nat>)
    ensures r.Some? ==> 16 <= r.value <= |s|
    ensures r.Some? ==> s[0] == ' '
  {
    if ClockFits(s, 2, 2) then Some(18)
    else if ClockFits(s, 2, 1) then Some(17)
    else if ClockFits(s, 1, 2) then Some(17)
    else if ClockFits(s, 1, 1) then Some(16)
    else None
  }

  /** Where the greedy ".*" that starts at j stops: at the first line
      terminator, or at the end. */
  function LineEnd(s: string, j: nat): (e: nat)
    requires j <= |s|
    ensures j <= e <= |s|
    ensures forall k | j <= k < e :: !IsLineTerminator(s[k])
    ensures e == |s| || IsLineTerminator(s[e])
    decreases |s| - j
  {
    if j == |s| || IsLineTerminator(s[j]) then j else LineEnd(s, j + 1)
  }

  /** s.replaceAll(" [0-9]?[0-9]:[0-9]?[0-9] Uhr \\(Druck:.*", ""): each
      leftmost match, from its space up to the next line terminator, is cut,
      and the search goes on after it. What it does is stated by
      StampFreeUnchanged and CutAtFirstStamp. */
  function CutPrintStamps(s: string): (r: string)
    ensures |r| <= |s|
    decreases |s|
  {
    if s == [] then []
    else match StampHead(s)
      case Some(n) => CutPrintStamps(s[LineEnd(s, n)..])
      case None => [s[0]] + CutPrintStamps(s[1..])
  }

  /** No stamp starts anywhere in s. */
  predicate StampFree(s: string) {
    forall j | 0 <= j < |s| :: StampHead(s[j..]) == None
  }

  /** Text without a print stamp is left as it is. */
  lemma {:induction false} StampFreeUnchanged(s: string)
    requires StampFree(s)
    ensures CutPrintStamps(s) == s
    decreases |s|
  {
    if s != [] {
      assert s[0..] == s;
      assert StampFree(s[1..]) by {
        forall j | 0 <= j < |s[1..]| ensures StampHead(s[1..][j..]) == None {
          assert s[1..][j..] == s[j + 1..];
        }
      }
      StampFreeUnchanged(s[1..]);
    }
  }

  /** On one line of text, everything from the first print stamp on is cut:
      what is left is the text before it. */
  lemma {:induction false} CutAtFirstStamp(s: string, i: nat)
    requires forall k | 0 <= k < |s| :: !IsLineTerminator(s[k])
    requires i <= |s|
    requires forall j | 0 <= j < i :: StampHead(s[j..]) == None
    requires i == |s| || StampHead(s[i..]).Some?
    ensures CutPrintStamps(s) == s[..i]
    decreases i
  {
    if s == [] {
    } else if i == 0 {
      assert s[0..] == s;
      var n := StampHead(s).value;
      assert LineEnd(s, n) == |s|;
    } else {
      assert s[0..] == s;
      forall j | 0 <= j < i - 1 ensures StampHead(s[1..][j..]) == None {
        assert s[1..][j..] == s[j + 1..];
      }
      assert i - 1 == |s[1..]| || StampHead(s[1..][i - 1..]).Some? by {
        assert s[1..][i - 1..] == s[i..];
      }
      CutAtFirstStamp(s[1..], i - 1);
      assert [s[0]] + s[1..][..i - 1] == s[..i];
    }
  }

  // ---------------------------------------------------------------------
  // The date, from the text of the first page
  // ---------------------------------------------------------------------

  /** extractLineData: every occurrence of the trimmed key is removed, the
      rest is trimmed, and the print stamp is cut off. The source uses the
      key as a regular expression; "Eingang:" has no special characters, so
      literal removal agrees with it. */
  function ExtractLineData(line: string, key: string): (date: string)
    ensures |date| <= |line|
  {
    CutPrintStamps(Trim(RemoveAll(line, Trim(key))))
  }

  /** A print stamp " H:MM Uhr (Druck:" + tail, with one- or two-digit
      hour and minutes. */
  function Stamp(hour: string, minutes: string, tail: string): string {
    " " + hour + ":" + minutes + PrintStampTail + tail
  }

  /** Whichever of the four digit layouts fits, the pattern matches. */
  lemma ClockFitsMatches(s: string, h: nat, m: nat)
    requires 1 <= h <= 2 && 1 <= m <= 2 && ClockFits(s, h, m)
    ensures StampHead(s).Some?
  {
    if h == 2 && m == 1 && !ClockFits(s, 2, 2) {
      assert StampHead(s) == Some(17);
    } else if h == 1 && m == 2 && !ClockFits(s, 2, 2) && !ClockFits(s, 2, 1) {
      assert StampHead(s) == Some(17);
    } else if h == 1 && m == 1 && !ClockFits(s, 2, 2) && !ClockFits(s, 2, 1) && !ClockFits(s, 1, 2) {
      assert StampHead(s) == Some(16);
    }
  }

  /** The converse: the pattern matches only where one of the four digit
      layouts fits, and the match is as long as that layout. */
  lemma StampHeadLayouts(s: string)
    ensures StampHead(s).Some? <==>
              exists h: nat, m: nat | 1 <= h <= 2 && 1 <= m <= 2 :: ClockFits(s, h, m)
    ensures StampHead(s).Some? ==>
              exists h: nat, m: nat | 1 <= h <= 2 && 1 <= m <= 2 ::
                ClockFits(s, h, m) && StampHead(s).value == 2 + h + m + |PrintStampTail|
  {
    if exists h: nat, m: nat | 1 <= h <= 2 && 1 <= m <= 2 :: ClockFits(s, h, m) {
      var h: nat, m: nat :| 1 <= h <= 2 && 1 <= m <= 2 && ClockFits(s, h, m);
      ClockFitsMatches(s, h, m);
    }
    if ClockFits(s, 2, 2) {
      assert StampHead(s).value == 2 + 2 + 2 + |PrintStampTail|;
    } else if ClockFits(s, 2, 1) {
      assert StampHead(s).value == 2 + 2 + 1 + |PrintStampTail|;
    } else if ClockFits(s, 1, 2) {
      assert StampHead(s).value == 2 + 1 + 2 + |PrintStampTail|;
    } else if ClockFits(s, 1, 1) {
      assert StampHead(s).value == 2 + 1 + 1 + |PrintStampTail|;
    }
  }

  /** A stamp with any of the four digit layouts matches the pattern. */
  lemma StampMatches(hour: string, minutes: string, tail: string)
    requires 1 <= |hour| <= 2 && AllDigits(hour)
    requires 1 <= |minutes| <= 2 && AllDigits(minutes)
    ensures StampHead(Stamp(hour, minutes, tail)).Some?
  {
    var s := Stamp(hour, minutes, tail);
    var h, m := |hour|, |minutes|;
    forall k | 1 <= k < 1 + h ensures IsDigit(s[k]) {
      assert s[k] == hour[k - 1];
    }
    forall k | 2 + h <= k < 2 + h + m ensures IsDigit(s[k]) {
      assert s[k] == minutes[k - 2 - h];
    }
    assert s[1 + h] == ':';
    forall k | 0 <= k < |PrintStampTail| ensures s[2 + h + m + k] == PrintStampTail[k] {
    }
    assert ClockFits(s, h, m);
    ClockFitsMatches(s, h, m);
  }

  /** s holds no line terminator, so ".*" runs to its end. */
  predicate OnOneLine(s: string) {
    forall k | 0 <= k < |s| :: !IsLineTerminator(s[k])
  }

  lemma OnOneLineAppend(a: string, b: string)
    requires OnOneLine(a) && OnOneLine(b)
    ensures OnOneLine(a + b)
  {
  }

  lemma DigitsOnOneLine(t: string)
    requires AllDigits(t)
    ensures OnOneLine(t) && 'E' !in t
  {
    assert forall k | 0 <= k < |t| :: IsDigit(t[k]);
  }

  /** A stamp with a one-line tail is itself on one line. */
  lemma StampOnOneLine(hour: string, minutes: string, tail: string)
    requires AllDigits(hour) && AllDigits(minutes) && OnOneLine(tail)
    ensures OnOneLine(Stamp(hour, minutes, tail))
  {
    DigitsOnOneLine(hour);
    DigitsOnOneLine(minutes);
    OnOneLineAppend(" ", hour);
    OnOneLineAppend(" " + hour, ":");
    OnOneLineAppend(" " + hour + ":", minutes);
    OnOneLineAppend(" " + hour + ":" + minutes, PrintStampTail);
    OnOneLineAppend(" " + hour + ":" + minutes + PrintStampTail, tail);
  }

  /** The last character of a stamp: that of its tail, or the ':' of
      "(Druck:". */
  lemma StampLast(hour: string, minutes: string, tail: string)
    ensures var s := Stamp(hour, minutes, tail);
      s[|s| - 1] == if tail == [] then ':' else tail[|tail| - 1]
  {
    var head := " " + hour + ":" + minutes + PrintStampTail;
    assert Stamp(hour, minutes, tail) == head + tail;
    if tail == [] {
      assert head[|head| - 1] == PrintStampTail[|PrintStampTail| - 1];
    }
  }

  /** The text after the key holds no 'E', so no second key either. */
  lemma StampedTextHasNoKey(date: string, hour: string, minutes: string, tail: string)
    requires AllDigits(hour) && AllDigits(minutes)
    requires DateKey[0] !in date && DateKey[0] !in tail
    ensures !Occurs(" " + date + Stamp(hour, minutes, tail), DateKey)
  {
    DigitsOnOneLine(hour);
    DigitsOnOneLine(minutes);
    assert DateKey[0] == 'E';
    AbsentHead(" " + date + Stamp(hour, minutes, tail), DateKey);
  }

  /** In date + stamp, the first print stamp starts right after the date. */
  lemma StampedTextCut(date: string, hour: string, minutes: string, tail: string)
    requires OnOneLine(date) && ' ' !in date
    requires 1 <= |hour| <= 2 && AllDigits(hour)
    requires 1 <= |minutes| <= 2 && AllDigits(minutes)
    requires OnOneLine(tail)
    ensures CutPrintStamps(date + Stamp(hour, minutes, tail)) == date
  {
    var stamp := Stamp(hour, minutes, tail);
    var t := date + stamp;
    StampOnOneLine(hour, minutes, tail);
    OnOneLineAppend(date, stamp);
    forall j | 0 <= j < |date| ensures StampHead(t[j..]) == None {
      assert t[j..][0] == date[j];
    }
    StampMatches(hour, minutes, tail);
    assert t[|date|..] == stamp;
    CutAtFirstStamp(t, |date|);
    assert t[..|date|] == date;
  }

  /** A line made of the key, a space and text without a second key or
      trimmable ends: only the text is left for the print-stamp cut. */
  lemma MarkedLineData(t: string)
    requires t != [] && !IsTrimmable(t[0]) && !IsTrimmable(t[|t| - 1])
    requires !Occurs(" " + t, DateKey)
    ensures ExtractLineData(DateKey + (" " + t), DateKey) == CutPrintStamps(t)
  {
    TrimUntrimmed(DateKey);
    RemoveAllPrefix(DateKey, " " + t);
    RemoveAllAbsent(" " + t, DateKey);
    TrimLeadingSpace(t);
  }

  /** A marked line "Eingang: <date> H:MM Uhr (Druck:<tail>" yields the
      date, provided the date is one word of printable characters, the
      tail neither spans lines nor ends in trimmable characters, and no
      second "Eingang:" follows the key (an 'E' alone, as in
      " 9:30 Uhr (Druck: EDV)", is allowed). */
  lemma StampedLineData(date: string, hour: string, minutes: string, tail: string)
    requires date != [] && (forall i | 0 <= i < |date| :: !IsTrimmable(date[i])) && OnOneLine(date)
    requires 1 <= |hour| <= 2 && AllDigits(hour)
    requires 1 <= |minutes| <= 2 && AllDigits(minutes)
    requires OnOneLine(tail) && (tail == [] || !IsTrimmable(tail[|tail| - 1]))
    requires !Occurs(" " + date + Stamp(hour, minutes, tail), DateKey)
    ensures ExtractLineData(DateKey + " " + date + Stamp(hour, minutes, tail), DateKey) == date
  {
    var stamp := Stamp(hour, minutes, tail);
    var t := date + stamp;
    assert DateKey + " " + date + stamp == DateKey + (" " + t);
    assert !Occurs(" " + t, DateKey) by {
      assert " " + date + stamp == " " + t;
    }
    assert !IsTrimmable(t[|t| - 1]) by {
      StampLast(hour, minutes, tail);
      assert t[|t| - 1] == stamp[|stamp| - 1];
    }
    assert t[0] == date[0];
    MarkedLineData(t);
    assert ' ' !in date by {
      assert forall i | 0 <= i < |date| :: date[i] != ' ';
    }
    StampedTextCut(date, hour, minutes, tail);
  }

  /** The line "Eingang: 01.02.2023 9:30 Uhr (Druck: xyz)", written as
      its pieces, yields "01.02.2023". */
  lemma LineDataExample()
    ensures ExtractLineData(DateKey + " " + "01.02.2023" + Stamp("9", "30", " xyz)"), DateKey) == "01.02.2023"
  {
    var date, hour, minutes, tail := "01.02.2023", "9", "30", " xyz)";
    assert (forall i | 0 <= i < |date| :: !IsTrimmable(date[i])) && OnOneLine(date) && DateKey[0] !in date;
    assert AllDigits(hour) && AllDigits(minutes);
    assert OnOneLine(tail) && DateKey[0] !in tail && !IsTrimmable(tail[|tail| - 1]);
    StampedTextHasNoKey(date, hour, minutes, tail);
    StampedLineData(date, hour, minutes, tail);
  }

  /** Those pieces spell the line out. */
  lemma LineDataExampleText()
    ensures DateKey + " " + "01.02.2023" + Stamp("9", "30", " xyz)") == "Eingang: 01.02.2023 9:30 Uhr (Druck: xyz)"
  {
  }

  /** The date the forEach over the lines ends with: that of the last line
      starting with the key, or "" when none does. */
  function LastDate(lines: seq<string>): (date: string)
    ensures date == "" || exists k | 0 <= k < |lines| ::
              StartsWith(lines[k], DateKey) && date == ExtractLineData(lines[k], DateKey)
    decreases |lines|
  {
    if lines == [] then ""
    else if StartsWith(lines[|lines| - 1], DateKey) then ExtractLineData(lines[|lines| - 1], DateKey)
    else LastDate(lines[..|lines| - 1])
  }

  /** The last marked line decides the date; earlier marked lines are
      overwritten. */
  lemma {:induction false} LastDateIsLastMarkedLine(lines: seq<string>, k: nat)
    requires k < |lines| && StartsWith(lines[k], DateKey)
    requires forall j | k < j < |lines| :: !StartsWith(lines[j], DateKey)
    ensures LastDate(lines) == ExtractLineData(lines[k], DateKey)
    decreases |lines|
  {
    if k < |lines| - 1 {
      var init := lines[..|lines| - 1];
      assert init[k] == lines[k];
      LastDateIsLastMarkedLine(init, k);
    }
  }

  /** Without a marked line the date stays "". */
  lemma {:induction false} LastDateWithoutMarker(lines: seq<string>)
    requires forall j | 0 <= j < |lines| :: !StartsWith(lines[j], DateKey)
    ensures LastDate(lines) == ""
    decreases |lines|
  {
    if lines != [] {
      var init := lines[..|lines| - 1];
      assert forall j | 0 <= j < |init| :: init[j] == lines[j];
      LastDateWithoutMarker(init);
    }
  }

  // ---------------------------------------------------------------------
  // The record of one document
  // ---------------------------------------------------------------------

  /** What PDFTextStripper.getText gives for the first page: an IOException,
      or the text. */
  datatype PageText = TextFails | Text(content: string)

  /** A loaded document, as far as the scanner looks at it. */
  datatype Document = Document(encrypted: bool, firstPage: PageText)

  /** The blank check: a blank name or a blank date both give the "name"
      error, so the "date" branch after it can never be taken. */
  function RecordFrom(name: string, date: string): (r: Result<Entries, Failure>)
    ensures r.Success? <==> !IsBlank(name) && !IsBlank(date)
    ensures r.Success? ==> r.value == [(name, date)]
    ensures r.Failure? ==> r.error == ExtractData(NameNotExtracted)
  {
    if IsBlank(name) || IsBlank(date) then Failure(ExtractData(NameNotExtracted))
    else if IsBlank(date) then Failure(ExtractData(DateNotExtracted))
    else Success([(name, date)])
  }

  /** extractFromFile as a function of the document and the file name. */
  function ExtractRecord(doc: Document, fileName: string): (r: Result<Entries, Failure>)
    ensures r.Failure? ==> r.error.IOError? || r.error.ExtractData?
  {
    if doc.encrypted then Failure(ExtractData(EncryptedFile))
    else match doc.firstPage
      case TextFails => Failure(IOError)
      case Text(text) => RecordFrom(ExtractNameFromFileName(fileName), LastDate(SplitLines(text)))
  }

  /** extractFromFile: an encrypted document fails at once; otherwise the
      page text is read, every line starting with the key overwrites the
      date, the name comes from the file name, and the pair is checked for
      blanks. */
  method ExtractFromFile(doc: Document, fileName: string) returns (readData: Result<Entries, Failure>)
    ensures readData == ExtractRecord(doc, fileName)
  {
    if !doc.encrypted {
      if doc.firstPage.TextFails? {
        return Failure(IOError);
      }
      var lines := SplitLines(doc.firstPage.content);
      var date := "";
      for i := 0 to |lines|
        invariant date == LastDate(lines[..i])
      {
        assert lines[..i + 1][..i] == lines[..i];
        if StartsWith(lines[i], DateKey) {
          date := ExtractLineData(lines[i], DateKey);
        }
      }
      assert lines[..|lines|] == lines;
      var name := ExtractNameFromFileName(fileName);
      if IsBlank(name) || IsBlank(date) {
        readData := Failure(ExtractData(NameNotExtracted));
      } else if IsBlank(date) {
        readData := Failure(ExtractData(DateNotExtracted));
      } else {
        readData := Success([(name, date)]);
      }
    } else {
      readData := Failure(ExtractData(EncryptedFile));
    }
  }

  /** Extraction succeeds exactly when the document is readable, the name
      and the date are not blank, and then the record is the single pair
      name -> date. */
  lemma ExtractRecordSuccess(doc: Document, fileName: string)
    ensures ExtractRecord(doc, fileName).Success? <==>
              && !doc.encrypted && doc.firstPage.Text?
              && !IsBlank(ExtractNameFromFileName(fileName))
              && !IsBlank(LastDate(SplitLines(doc.firstPage.content)))
    ensures ExtractRecord(doc, fileName).Success? ==>
              ExtractRecord(doc, fileName).value ==
                [(ExtractNameFromFileName(fileName), LastDate(SplitLines(doc.firstPage.content)))]
    ensures && !doc.encrypted && doc.firstPage.Text?
            && (|| IsBlank(ExtractNameFromFileName(fileName))
                || IsBlank(LastDate(SplitLines(doc.firstPage.content))))
            ==> ExtractRecord(doc, fileName) == Failure(ExtractData(NameNotExtracted))
  {
  }

  /** A readable page under a file name without '_' ("report.pdf") fails
      with the "name" error, whatever the page says. */
  lemma UnnamedFileFails(text: string, fileName: string)
    requires '_' !in fileName
    ensures ExtractRecord(Document(false, Text(text)), fileName) == Failure(ExtractData(NameNotExtracted))
  {
    UndatedFileName(fileName);
  }

  /** A marker line with nothing after it but blanks ("Eingang:   ") gives
      a blank date, so the file fails with the "name" error even when its
      name is fine. */
  lemma BlankMarkedLineFails(blanks: string, fileName: string)
    requires forall i | 0 <= i < |blanks| :: blanks[i] == ' '
    ensures ExtractLineData(DateKey + blanks, DateKey) == ""
    ensures ExtractRecord(Document(false, Text(DateKey + blanks)), fileName) == Failure(ExtractData(NameNotExtracted))
  {
    var line := DateKey + blanks;
    AbsentHead(blanks, DateKey);
    RemoveAllPrefix(DateKey, blanks);
    RemoveAllAbsent(blanks, DateKey);
    TrimIsInfix(blanks);
    assert Trim(blanks) == [];
    assert '\n' !in line && SplitLines(line) == [line];
    assert StartsWith(line, DateKey);
    LastDateIsLastMarkedLine([line], 0);
  }

  /** A blank name or date is always reported as the "name" error: the
      "date" error is never raised. */
  lemma DateErrorUnreachable(doc: Document, fileName: string)
    ensures ExtractRecord(doc, fileName) != Failure(ExtractData(DateNotExtracted))
  {
  }

  /** An encrypted document fails without its text being looked at: the
      result is the same whatever reading the page would have given. */
  lemma EncryptedReadsNoText(fileName: string, page: PageText, other: PageText)
    ensures ExtractRecord(Document(true, page), fileName) == ExtractRecord(Document(true, other), fileName)
    ensures ExtractRecord(Document(true, page), fileName) == Failure(ExtractData(EncryptedFile))
  {
  }

  /** A page without a line starting with the key leaves the date blank, and
      the file fails with the "name" error even when its name is fine. */
  lemma NoMarkerLineFails(text: string, fileName: string)
    requires forall j | 0 <= j < |SplitLines(text)| :: !StartsWith(SplitLines(text)[j], DateKey)
    ensures ExtractRecord(Document(false, Text(text)), fileName) == Failure(ExtractData(NameNotExtracted))
  {
    LastDateWithoutMarker(SplitLines(text));
  }

  /** Every record extraction produces passes the correctness check. */
  lemma ExtractedRecordIsCorrect(doc: Document, fileName: string)
    requires ExtractRecord(doc, fileName).Success?
    ensures CheckDataCorrectness(ExtractRecord(doc, fileName).value) == Pass
    ensures |ExtractRecord(doc, fileName).value| == 1
  {
  }

  // ---------------------------------------------------------------------
  // Visiting the files
  // ---------------------------------------------------------------------

  /** PDDocument.load: an IOException, or the document. */
  datatype LoadOutcome = LoadFails | Loaded(doc: Document)

  /** One file the walk visits: its absolute path, its file name, and what
      loading it gives. */
  datatype FileEntry = FileEntry(path: string, fileName: string, load: LoadOutcome)

  /** Where a visit ends: in the IOException handler, in the handler of the
      three data exceptions, or after the merge. */
  datatype Verdict = Unread | Rejected(failure: Failure) | Accepted(record: Entries)

  /** The decision the body of visitFile takes for one file, given the
      result map as it stands. */
  function Judge(f: FileEntry, pdfData: map<string, string>): (v: Verdict)
    ensures v.Rejected? ==> !v.failure.IOError?
  {
    match f.load
    case LoadFails => Unread
    case Loaded(doc) =>
      match ExtractRecord(doc, f.fileName)
      case Failure(e) => if e.IOError? then Unread else Rejected(e)
      case Success(readData) =>
        match CheckDataCorrectness(readData)
        case Fail(e) => Rejected(e)
        case Pass =>
          match UniquenessVerdict(readData, pdfData)
          case Fail(e) => Rejected(e)
          case Pass => Accepted(readData)
  }

  /** The result map and the ledger, together. */
  datatype ScanState = ScanState(pdfData: map<string, string>, status: Status)

  /** The bookkeeping for a file with the given path and verdict: select
      it, then update the ledger and the map as the verdict says. A
      duplicate is counted before the read error is recorded. */
  function Settle(st: ScanState, path: string, v: Verdict): ScanState {
    var selected := WithSelected(st.status, path);
    match v
    case Unread => ScanState(st.pdfData, WithNotRead(selected, path))
    case Rejected(e) =>
      var counted := if e.DuplicateData? then WithDuplicate(selected, e.name) else selected;
      ScanState(st.pdfData, WithReadError(counted, path))
    case Accepted(readData) => ScanState(PutAll(st.pdfData, readData), WithReadSuccess(selected, path))
  }

  /** One visit. */
  function Step(st: ScanState, f: FileEntry): ScanState {
    Settle(st, f.path, Judge(f, st.pdfData))
  }

  /** The visits of a whole walk, in order. */
  function Run(files: seq<FileEntry>, st: ScanState): ScanState
    decreases |files|
  {
    if files == [] then st else Step(Run(files[..|files| - 1], st), files[|files| - 1])
  }

  /** The body of visitFile. Every exception is caught, so the walk always
      continues with the next file. */
  method VisitFile(f: FileEntry, pdfData: map<string, string>, status: CsvErrorStatus)
    returns (pdfData': map<string, string>)
    modifies status
    ensures ScanState(pdfData', status.State()) == Step(ScanState(pdfData, old(status.State())), f)
    ensures old(status.Valid()) ==> status.Valid()
  {
    status.selectedDocuments := status.selectedDocuments + {f.path};
    pdfData' := pdfData;
    if f.load.LoadFails? {
      status.notReadDocuments := status.notReadDocuments + {f.path};
      return;
    }
    var extracted := ExtractFromFile(f.load.doc, f.fileName);
    if extracted.Failure? {
      if extracted.error.IOError? {
        status.notReadDocuments := status.notReadDocuments + {f.path};
      } else {
        status.AddReadError(f.path);
      }
      return;
    }
    var readData := extracted.value;
    var correct := CheckDataCorrectness(readData);
    if correct.Fail? {
      // Never taken: an extracted record always passes (ExtractedRecordIsCorrect).
      assert false;
    }
    var unique := CheckDataUniqueness(readData, pdfData, status);
    if unique.Fail? {
      status.AddReadError(f.path);
      return;
    }
    pdfData' := PutAll(pdfData, readData);
    status.AddReadSuccess(f.path);
  }

  /** scanFile: visits the files of the walk one after the other. */
  method ScanFile(files: seq<FileEntry>, pdfData: map<string, string>, status: CsvErrorStatus)
    returns (pdfData': map<string, string>)
    modifies status
    ensures ScanState(pdfData', status.State()) == Run(files, ScanState(pdfData, old(status.State())))
    ensures old(status.Valid()) ==> status.Valid()
  {
    pdfData' := pdfData;
    for i := 0 to |files|
      invariant ScanState(pdfData', status.State()) == Run(files[..i], ScanState(pdfData, old(status.State())))
      invariant old(status.Valid()) ==> status.Valid()
    {
      assert files[..i + 1][..i] == files[..i];
      pdfData' := VisitFile(files[i], pdfData', status);
    }
    assert files[..|files|] == files;
  }
}
