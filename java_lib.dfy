/**
  The parts of java.lang.String and java.util.Map that the scanner relies on,
  with the edge cases of the Java library written out: trim() and isBlank()
  disagree on what counts as white space, split() drops trailing empty
  pieces, and replace() works left to right on non-overlapping occurrences.
  Characters are Unicode scalar values; Java's UTF-16 surrogate pairs are not
  modelled.
*/
module JavaLib {

  // ---------------------------------------------------------------------
  // White space, trim() and isBlank()
  // ---------------------------------------------------------------------

  /** Character.isWhitespace: the Unicode space, line and paragraph
      separators except the three no-break spaces, plus U+0009..U+000D and
      U+001C..U+001F. */
  predicate IsWhitespace(c: char) {
    ('\t' <= c <= '\r')
    || ('\U{1C}' <= c <= ' ')
    || c == '\U{1680}'
    || ('\U{2000}' <= c <= '\U{2006}')
    || ('\U{2008}' <= c <= '\U{200A}')
    || c == '\U{2028}' || c == '\U{2029}'
    || c == '\U{205F}' || c == '\U{3000}'
  }

  /** String.isBlank: empty, or white space only. */
  predicate IsBlank(s: string) {
    forall i | 0 <= i < |s| :: IsWhitespace(s[i])
  }

  /** The characters String.trim removes: every code unit up to U+0020. */
  predicate IsTrimmable(c: char) {
    c <= ' '
  }

  /** trim()'s first loop: the index of the first character from i on that
      is not trimmable, or |s|. */
  function TrimLead(s: string, i: nat): (st: nat)
    requires i <= |s|
    ensures i <= st <= |s|
    ensures forall j | i <= j < st :: IsTrimmable(s[j])
    ensures st == |s| || !IsTrimmable(s[st])
    decreases |s| - i
  {
    if i < |s| && IsTrimmable(s[i]) then TrimLead(s, i + 1) else i
  }

  /** trim()'s second loop: the end len shrinks while it is past st and the
      character before it is trimmable. */
  function TrimTail(s: string, st: nat, len: nat): (en: nat)
    requires st <= len <= |s|
    ensures st <= en <= len
    ensures forall j | en <= j < len :: IsTrimmable(s[j])
    ensures en == st || !IsTrimmable(s[en - 1])
    decreases len
  {
    if st < len && IsTrimmable(s[len - 1]) then TrimTail(s, st, len - 1) else len
  }

  /** String.trim. */
  function Trim(s: string): (r: string)
    ensures r == [] || (!IsTrimmable(r[0]) && !IsTrimmable(r[|r| - 1]))
  {
    var st := TrimLead(s, 0);
    s[st..TrimTail(s, st, |s|)]
  }

  /** What trim() leaves is an infix of s, and all it cut off on either side
      is trimmable. */
  lemma TrimIsInfix(s: string)
    ensures var st := TrimLead(s, 0);
      var en := TrimTail(s, st, |s|);
      && Trim(s) == s[st..en]
      && (forall i | 0 <= i < st :: IsTrimmable(s[i]))
      && (forall i | en <= i < |s| :: IsTrimmable(s[i]))
  {
  }

  /** Trimming text that neither starts nor ends with a trimmable character
      changes nothing. */
  lemma TrimUntrimmed(s: string)
    requires s != [] && !IsTrimmable(s[0]) && !IsTrimmable(s[|s| - 1])
    ensures Trim(s) == s
  {
    assert TrimLead(s, 0) == 0 && TrimTail(s, 0, |s|) == |s| && s[0..|s|] == s;
  }

  /** A leading space in front of untrimmed text is all that trim() removes. */
  lemma TrimLeadingSpace(s: string)
    requires s != [] && !IsTrimmable(s[0]) && !IsTrimmable(s[|s| - 1])
    ensures Trim(" " + s) == s
  {
    var t := " " + s;
    assert TrimLead(t, 0) == 1 by {
      assert TrimLead(t, 1) == 1 && t[1] == s[0];
    }
    assert TrimTail(t, 1, |t|) == |t| && t[1..] == s;
  }

  // ---------------------------------------------------------------------
  // Prefixes and literal replacement
  // ---------------------------------------------------------------------

  /** String.startsWith. */
  predicate StartsWith(s: string, prefix: string) {
    |prefix| <= |s| && s[..|prefix|] == prefix
  }

  /** pat occurs somewhere in s. */
  predicate Occurs(s: string, pat: string) {
    exists j | 0 <= j <= |s| - |pat| :: StartsWith(s[j..], pat)
  }

  /** s.replace(pat, "") and, for a pattern without regular-expression
      meta characters, s.replaceAll(pat, ""): each occurrence found scanning
      left to right is removed, and the scan goes on after it. An empty
      pattern leaves s unchanged. What it does is stated by RemoveAllPrefix,
      RemoveAllAbsent, RemoveAllKeepsAbsent and RemoveAllAppended. */
  function RemoveAll(s: string, pat: string): (r: string)
    ensures |r| <= |s|
    decreases |s|
  {
    if pat == [] || |s| < |pat| then s
    else if StartsWith(s, pat) then RemoveAll(s[|pat|..], pat)
    else [s[0]] + RemoveAll(s[1..], pat)
  }

  /** An occurrence at the front is removed and the scan goes on after it. */
  lemma RemoveAllPrefix(pat: string, rest: string)
    requires pat != []
    ensures RemoveAll(pat + rest, pat) == RemoveAll(rest, pat)
  {
    var s := pat + rest;
    assert StartsWith(s, pat) && s[|pat|..] == rest;
  }

  /** Without an occurrence of the pattern, removal changes nothing. */
  lemma {:induction false} RemoveAllAbsent(s: string, pat: string)
    requires !Occurs(s, pat)
    ensures RemoveAll(s, pat) == s
    decreases |s|
  {
    if pat != [] && |pat| <= |s| {
      assert s[0..] == s;
      assert !StartsWith(s, pat);
      assert !Occurs(s[1..], pat) by {
        forall j | 0 <= j <= |s[1..]| - |pat|
          ensures !StartsWith(s[1..][j..], pat)
        {
          assert s[1..][j..] == s[j + 1..];
        }
      }
      RemoveAllAbsent(s[1..], pat);
    }
  }

  /** Removal only deletes: a character that is not in s is not in the
      result either. */
  lemma {:induction false} RemoveAllKeepsAbsent(s: string, pat: string, c: char)
    requires c !in s
    ensures c !in RemoveAll(s, pat)
    decreases |s|
  {
    if pat != [] && |s| >= |pat| {
      if StartsWith(s, pat) {
        assert forall k | 0 <= k < |s[|pat|..]| :: s[|pat|..][k] == s[k + |pat|];
        RemoveAllKeepsAbsent(s[|pat|..], pat, c);
      } else {
        assert forall k | 0 <= k < |s[1..]| :: s[1..][k] == s[k + 1];
        RemoveAllKeepsAbsent(s[1..], pat, c);
      }
    }
  }

  /** A pattern whose first character does not recur in it (such as ".pdf")
      cannot overlap itself, so appending one occurrence and removing all of
      them gives back a stem that did not contain it. */
  lemma {:induction false} RemoveAllAppended(stem: string, pat: string)
    requires pat != [] && forall k | 0 < k < |pat| :: pat[k] != pat[0]
    requires !Occurs(stem, pat)
    ensures RemoveAll(stem + pat, pat) == stem
    decreases |stem|
  {
    var s := stem + pat;
    if stem == [] {
      assert s == pat && StartsWith(s, pat);
      assert s[|pat|..] == [];
    } else {
      assert !StartsWith(s, pat) by {
        if |stem| >= |pat| {
          assert stem[0..] == stem;
          assert s[..|pat|] == stem[..|pat|];
        } else {
          assert s[..|pat|][|stem|] == pat[0] != pat[|stem|];
        }
      }
      assert s[1..] == stem[1..] + pat;
      assert !Occurs(stem[1..], pat) by {
        forall j | 0 <= j <= |stem[1..]| - |pat|
          ensures !StartsWith(stem[1..][j..], pat)
        {
          assert stem[1..][j..] == stem[j + 1..];
        }
      }
      RemoveAllAppended(stem[1..], pat);
    }
  }

  // ---------------------------------------------------------------------
  // split()
  // ---------------------------------------------------------------------

  /** All pieces of s between occurrences of c, empty ones included: one
      more piece than there are occurrences. */
  function SplitOn(s: string, c: char): (parts: seq<string>)
    ensures |parts| > 0
    ensures forall i | 0 <= i < |parts| :: c !in parts[i]
    ensures c !in s ==> parts == [s]
  {
    if s == [] then [""]
    else
      var rest := SplitOn(s[1..], c);
      if s[0] == c then [""] + rest
      else
        var parts := [[s[0]] + rest[0]] + rest[1..];
        assert c !in [s[0]] + rest[0];
        assert forall i | 1 <= i < |parts| :: parts[i] == rest[i];
        assert c !in s ==> [s[0]] + rest[0] == s;
        parts
  }

  /** The pieces glued back together with c between them. */
  function Join(parts: seq<string>, c: char): string
    requires |parts| > 0
  {
    if |parts| == 1 then parts[0] else parts[0] + [c] + Join(parts[1..], c)
  }

  /** Splitting a string whose head holds no separator keeps the head
      glued to the first piece of the rest. */
  lemma {:induction false} SplitOnHead(x: string, y: string, c: char)
    requires c !in x
    ensures SplitOn(x + y, c) == [x + SplitOn(y, c)[0]] + SplitOn(y, c)[1..]
    decreases |x|
  {
    if x != [] {
      assert (x + y)[1..] == x[1..] + y;
      SplitOnHead(x[1..], y, c);
      assert [x[0]] + (x[1..] + SplitOn(y, c)[0]) == x + SplitOn(y, c)[0];
    } else {
      var parts := SplitOn(y, c);
      assert x + y == y && x + parts[0] == parts[0];
      assert parts == [parts[0]] + parts[1..];
    }
  }

  /** Splitting undoes joining, for pieces that hold no separator. */
  lemma {:induction false} SplitOnJoin(parts: seq<string>, c: char)
    requires |parts| > 0
    requires forall i | 0 <= i < |parts| :: c !in parts[i]
    ensures SplitOn(Join(parts, c), c) == parts
    decreases |parts|
  {
    if |parts| > 1 {
      var tail := Join(parts[1..], c);
      SplitOnJoin(parts[1..], c);
      assert ([c] + tail)[1..] == tail;
      assert SplitOn([c] + tail, c) == [""] + parts[1..];
      assert parts[0] + [c] + tail == parts[0] + ([c] + tail);
      SplitOnHead(parts[0], [c] + tail, c);
      assert parts[0] + "" == parts[0];
      assert parts == [parts[0]] + parts[1..];
    }
  }

  /** Joining undoes splitting. */
  lemma {:induction false} JoinSplitOn(s: string, c: char)
    ensures Join(SplitOn(s, c), c) == s
    decreases |s|
  {
    if s != [] {
      var rest := SplitOn(s[1..], c);
      JoinSplitOn(s[1..], c);
      if s[0] == c {
        assert SplitOn(s, c)[1..] == rest;
      } else {
        var parts := SplitOn(s, c);
        if |rest| == 1 {
          assert parts == [[s[0]] + rest[0]];
        } else {
          assert parts[1..] == rest[1..];
          assert Join(rest, c) == rest[0] + [c] + Join(rest[1..], c);
        }
        assert s == [s[0]] + s[1..];
      }
    }
  }

  /** Removes the empty pieces at the end of the list. */
  function DropTrailingEmpty(parts: seq<string>): (r: seq<string>)
    ensures |r| <= |parts| && r == parts[..|r|]
    ensures r == [] || r[|r| - 1] != ""
    ensures forall i | |r| <= i < |parts| :: parts[i] == ""
  {
    if parts != [] && parts[|parts| - 1] == "" then DropTrailingEmpty(parts[..|parts| - 1])
    else parts
  }

  /** String.split on a one-character, non-meta pattern, limit 0: without
      any occurrence the result is [s] (even for ""); otherwise the pieces,
      without the trailing empty ones. */
  function Split(s: string, c: char): (parts: seq<string>)
    ensures forall i | 0 <= i < |parts| :: c !in parts[i]
    ensures c !in s ==> parts == [s]
    ensures c in s ==> parts == [] || parts[|parts| - 1] != ""
  {
    if c !in s then [s] else DropTrailingEmpty(SplitOn(s, c))
  }

  /** split() gives back the pieces a name was assembled from, provided the
      pieces hold no separator and the last is not empty. */
  lemma SplitJoin(parts: seq<string>, c: char)
    requires |parts| > 0
    requires forall i | 0 <= i < |parts| :: c !in parts[i]
    requires |parts| == 1 || parts[|parts| - 1] != ""
    ensures Split(Join(parts, c), c) == parts
  {
    if |parts| > 1 {
      SplitOnJoin(parts, c);
      assert c in Join(parts, c) by {
        assert Join(parts, c) == parts[0] + [c] + Join(parts[1..], c);
        assert Join(parts, c)[|parts[0]|] == c;
      }
    }
  }

  /** The piece before a matched "\r\n" loses the '\r'. */
  function DropCarriageReturn(line: string): (r: string)
    ensures line != [] && line[|line| - 1] == '\r' ==> line == r + "\r"
    ensures line == [] || line[|line| - 1] != '\r' ==> r == line
    ensures r == line[..|r|]
  {
    if line != [] && line[|line| - 1] == '\r' then line[..|line| - 1] else line
  }

  /** Applies DropCarriageReturn to every piece except the last one, which
      was not followed by a line feed. */
  function DropCarriageReturns(parts: seq<string>): (r: seq<string>)
    ensures |r| == |parts|
    ensures |parts| > 0 ==> r[|r| - 1] == parts[|parts| - 1]
    ensures forall i | 0 <= i < |parts| - 1 :: r[i] == DropCarriageReturn(parts[i])
  {
    if |parts| <= 1 then parts
    else [DropCarriageReturn(parts[0])] + DropCarriageReturns(parts[1..])
  }

  /** text.split("\\r?\\n"): pieces between line feeds, a '\r' just before
      a line feed belonging to the separator, trailing empty pieces
      dropped, and [text] when there is no line feed at all. */
  function SplitLines(text: string): (lines: seq<string>)
    ensures forall i | 0 <= i < |lines| :: '\n' !in lines[i]
  {
    if '\n' !in text then [text]
    else
      var parts := SplitOn(text, '\n');
      var stripped := DropCarriageReturns(parts);
      assert forall i | 0 <= i < |stripped| :: '\n' !in stripped[i] by {
        forall i | 0 <= i < |stripped| ensures '\n' !in stripped[i] {
          assert stripped[i] == parts[i][..|stripped[i]|];
        }
      }
      DropTrailingEmpty(stripped)
  }

  /** Lines without line feeds, without a '\r' at their end and with a
      non-empty last line come back from split("\\r?\\n") as they were
      joined by '\n'. */
  lemma SplitLinesJoin(lines: seq<string>)
    requires |lines| > 0
    requires forall i | 0 <= i < |lines| :: '\n' !in lines[i]
    requires forall i | 0 <= i < |lines| :: lines[i] == [] || lines[i][|lines[i]| - 1] != '\r'
    requires |lines| == 1 || lines[|lines| - 1] != ""
    ensures SplitLines(Join(lines, '\n')) == lines
  {
    if |lines| > 1 {
      SplitOnJoin(lines, '\n');
      assert '\n' in Join(lines, '\n') by {
        assert Join(lines, '\n') == lines[0] + ['\n'] + Join(lines[1..], '\n');
        assert Join(lines, '\n')[|lines[0]|] == '\n';
      }
      var stripped := DropCarriageReturns(lines);
      assert stripped == lines by {
        forall i | 0 <= i < |lines| ensures stripped[i] == lines[i] {
        }
      }
    }
  }

  /** The lines as the text holds them when they are separated by "\r\n":
      every line except the last is followed by '\r' before its line feed. */
  function WithCarriageReturns(lines: seq<string>): (r: seq<string>)
    ensures |r| == |lines|
    ensures |lines| > 0 ==> r[|r| - 1] == lines[|lines| - 1]
    ensures forall i | 0 <= i < |lines| - 1 :: r[i] == lines[i] + "\r"
  {
    if |lines| <= 1 then lines
    else [lines[0] + "\r"] + WithCarriageReturns(lines[1..])
  }

  /** The pieces separated by "\r\n" hold no line feed. */
  lemma CarriageReturnsOnLines(lines: seq<string>)
    requires forall i | 0 <= i < |lines| :: '\n' !in lines[i]
    ensures forall i | 0 <= i < |lines| :: '\n' !in WithCarriageReturns(lines)[i]
  {
    var crs := WithCarriageReturns(lines);
    forall i | 0 <= i < |lines| ensures '\n' !in crs[i] {
      if i < |lines| - 1 {
        assert crs[i] == lines[i] + "\r";
      }
    }
  }

  /** The '\r' put before each line feed is the one taken off again. */
  lemma {:induction false} CarriageReturnsDropped(lines: seq<string>)
    ensures DropCarriageReturns(WithCarriageReturns(lines)) == lines
    decreases |lines|
  {
    if |lines| > 1 {
      var crs := WithCarriageReturns(lines);
      assert crs == [lines[0] + "\r"] + WithCarriageReturns(lines[1..]);
      assert crs[1..] == WithCarriageReturns(lines[1..]);
      DropAddedCarriageReturn(lines[0]);
      CarriageReturnsDropped(lines[1..]);
      assert DropCarriageReturns(crs) == [lines[0]] + lines[1..];
    }
  }

  lemma DropAddedCarriageReturn(line: string)
    ensures DropCarriageReturn(line + "\r") == line
  {
    var t := line + "\r";
    assert t != [] && t[|t| - 1] == '\r';
  }

  /** Lines without line feeds, the last one non-empty, come back from
      split("\\r?\\n") when they are separated by "\r\n": the '\r' belongs
      to the separator, whatever the lines themselves end with. */
  lemma SplitLinesCrLf(lines: seq<string>)
    requires |lines| > 0
    requires forall i | 0 <= i < |lines| :: '\n' !in lines[i]
    requires |lines| == 1 || lines[|lines| - 1] != ""
    ensures SplitLines(Join(WithCarriageReturns(lines), '\n')) == lines
  {
    var crs := WithCarriageReturns(lines);
    if |lines| > 1 {
      CarriageReturnsOnLines(lines);
      SplitOnJoin(crs, '\n');
      assert '\n' in Join(crs, '\n') by {
        assert Join(crs, '\n') == crs[0] + ['\n'] + Join(crs[1..], '\n');
        assert Join(crs, '\n')[|crs[0]|] == '\n';
      }
      CarriageReturnsDropped(lines);
    }
  }

  // ---------------------------------------------------------------------
  // Map.putAll
  // ---------------------------------------------------------------------

  /** m.putAll(entries), the entries taken in iteration order: a key put
      later wins. */
  function PutAll<K, V>(m: map<K, V>, entries: seq<(K, V)>): (r: map<K, V>)
    ensures m.Keys <= r.Keys
    ensures forall i | 0 <= i < |entries| :: entries[i].0 in r
    ensures forall k | k in r :: k in m || exists i | 0 <= i < |entries| :: entries[i].0 == k
    ensures forall k | k in m && (forall i | 0 <= i < |entries| :: entries[i].0 != k) :: r[k] == m[k]
    ensures forall i | 0 <= i < |entries| && (forall j | i < j < |entries| :: entries[j].0 != entries[i].0) ::
              r[entries[i].0] == entries[i].1
    decreases |entries|
  {
    if entries == [] then m
    else
      var r := PutAll(m[entries[0].0 := entries[0].1], entries[1..]);
      assert forall i | 1 <= i < |entries| :: entries[i] == entries[1..][i - 1];
      r
  }

  /** b contains every entry of a, with the same value. */
  ghost predicate IsSubmap<K, V>(a: map<K, V>, b: map<K, V>) {
    forall k | k in a :: k in b && b[k] == a[k]
  }
}
