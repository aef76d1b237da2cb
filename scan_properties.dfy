/**
  What a directory walk does to the ledger and to the result map: each
  visit selects its file and classifies it exactly once, accepted records
  only ever add names, the first value found for a name is kept, and the
  ledger invariants survive any walk.
*/
module ScanProperties {
  import opened Wrappers
  import opened JavaLib
  import opened Exceptions
  import opened Csv
  import opened Helper
  import opened PdfScanner

  /** No document is both read and not read, nor read both with and
      without errors. */
  predicate Disjoint(s: Status) {
    && s.documentsWithErrors !! s.documentsWithoutErrors
    && s.notReadDocuments !! s.readDocuments
  }

  /** The paths of a sequence of visited files. */
  function Paths(files: seq<FileEntry>): set<string> {
    set i | 0 <= i < |files| :: files[i].path
  }

  /** No path occurs twice among the files. */
  predicate DistinctPaths(files: seq<FileEntry>) {
    forall i, j | 0 <= i < j < |files| :: files[i].path != files[j].path
  }

  // ---------------------------------------------------------------------
  // One visit
  // ---------------------------------------------------------------------

  /** The verdict of a visit in the source's own terms: a file is not read
      when loading it or reading its page fails; it is accepted when its
      record can be extracted and its name is new; a duplicate is a record
      whose name is already in the map. */
  lemma JudgeCases(f: FileEntry, m: map<string, string>)
    ensures Judge(f, m).Unread? <==>
              f.load.LoadFails? || (!f.load.doc.encrypted && f.load.doc.firstPage.TextFails?)
    ensures Judge(f, m).Accepted? <==>
              && f.load.Loaded? && ExtractRecord(f.load.doc, f.fileName).Success?
              && ExtractRecord(f.load.doc, f.fileName).value[0].0 !in m
    ensures Judge(f, m).Accepted? ==>
              Judge(f, m).record == ExtractRecord(f.load.doc, f.fileName).value
    ensures Judge(f, m).Rejected? && Judge(f, m).failure.DuplicateData? <==>
              && f.load.Loaded? && ExtractRecord(f.load.doc, f.fileName).Success?
              && ExtractRecord(f.load.doc, f.fileName).value[0].0 in m
    ensures Judge(f, m).Rejected? && Judge(f, m).failure.DuplicateData? ==>
              Judge(f, m).failure.name == ExtractRecord(f.load.doc, f.fileName).value[0].0
  {
    if f.load.Loaded? && ExtractRecord(f.load.doc, f.fileName).Success? {
      ExtractedRecordIsCorrect(f.load.doc, f.fileName);
    }
  }

  /** The bookkeeping selects the file and adds its path to exactly the
      sets its verdict names: notReadDocuments when unread, readDocuments
      and documentsWithErrors when rejected, readDocuments and
      documentsWithoutErrors when accepted. */
  lemma SettleOutcome(st: ScanState, path: string, v: Verdict)
    ensures var s, t, p := st.status, Settle(st, path, v).status, {path};
      && t.selectedDocuments == s.selectedDocuments + p
      && t.notReadDocuments == s.notReadDocuments + (if v.Unread? then p else {})
      && t.readDocuments == s.readDocuments + (if v.Unread? then {} else p)
      && t.documentsWithErrors == s.documentsWithErrors + (if v.Rejected? then p else {})
      && t.documentsWithoutErrors == s.documentsWithoutErrors + (if v.Accepted? then p else {})
  {
  }

  /** The same for a visit, whose verdict is Judge's. */
  lemma StepOutcome(st: ScanState, f: FileEntry)
    ensures var s, t, v, p := st.status, Step(st, f).status, Judge(f, st.pdfData), {f.path};
      && t.selectedDocuments == s.selectedDocuments + p
      && t.notReadDocuments == s.notReadDocuments + (if v.Unread? then p else {})
      && t.readDocuments == s.readDocuments + (if v.Unread? then {} else p)
      && t.documentsWithErrors == s.documentsWithErrors + (if v.Rejected? then p else {})
      && t.documentsWithoutErrors == s.documentsWithoutErrors + (if v.Accepted? then p else {})
  {
    SettleOutcome(st, f.path, Judge(f, st.pdfData));
  }

  /** The map changes only on acceptance, and then gains exactly the new
      name with its date. */
  lemma StepResults(st: ScanState, f: FileEntry)
    ensures var v := Judge(f, st.pdfData);
      v.Accepted? ==>
        && |v.record| == 1 && v.record[0].0 !in st.pdfData
        && Step(st, f).pdfData == st.pdfData[v.record[0].0 := v.record[0].1]
    ensures !Judge(f, st.pdfData).Accepted? ==> Step(st, f).pdfData == st.pdfData
    ensures IsSubmap(st.pdfData, Step(st, f).pdfData)
  {
    var v := Judge(f, st.pdfData);
    if v.Accepted? {
      JudgeCases(f, st.pdfData);
      ExtractedRecordIsCorrect(f.load.doc, f.fileName);
      UniqueMergeKeepsExisting(v.record, st.pdfData);
    }
  }

  /** A visit raises the duplicate count of a name by one exactly when it
      is rejected as a duplicate of that name. */
  lemma StepDuplicates(st: ScanState, f: FileEntry, name: string)
    ensures DuplicateCount(Step(st, f).status, name) ==
              DuplicateCount(st.status, name) +
              (if Judge(f, st.pdfData) == Rejected(DuplicateData(name)) then 1 else 0)
  {
  }

  /** A visit keeps the ledger invariants. */
  lemma StepKeepsInvariant(st: ScanState, f: FileEntry)
    ensures Consistent(st.status) ==> Consistent(Step(st, f).status)
    ensures Covered(st.status) ==> Covered(Step(st, f).status)
  {
    StepOutcome(st, f);
  }

  /** Visiting a file whose path was not selected before keeps the sets
      disjoint. */
  lemma StepKeepsDisjoint(st: ScanState, f: FileEntry)
    requires Consistent(st.status) && Covered(st.status) && Disjoint(st.status)
    requires f.path !in st.status.selectedDocuments
    ensures Disjoint(Step(st, f).status)
  {
    StepOutcome(st, f);
  }

  // ---------------------------------------------------------------------
  // A whole walk
  // ---------------------------------------------------------------------

  /** Walking a then b is walking a + b. */
  lemma {:induction false} RunAppend(a: seq<FileEntry>, b: seq<FileEntry>, st: ScanState)
    ensures Run(a + b, st) == Run(b, Run(a, st))
    decreases |b|
  {
    if b == [] {
      assert a + b == a;
    } else {
      var init := b[..|b| - 1];
      assert (a + b)[..|a + b| - 1] == a + init;
      assert (a + b)[|a + b| - 1] == b[|b| - 1];
      RunAppend(a, init, st);
    }
  }

  /** A walk only adds: every set grows, the map keeps every name with its
      first value, and no duplicate count goes down. */
  lemma {:induction false} RunGrows(files: seq<FileEntry>, st: ScanState)
    ensures var s, t := st.status, Run(files, st).status;
      && s.selectedDocuments <= t.selectedDocuments
      && s.readDocuments <= t.readDocuments
      && s.notReadDocuments <= t.notReadDocuments
      && s.documentsWithErrors <= t.documentsWithErrors
      && s.documentsWithoutErrors <= t.documentsWithoutErrors
    ensures IsSubmap(st.pdfData, Run(files, st).pdfData)
    ensures forall name :: DuplicateCount(st.status, name) <= DuplicateCount(Run(files, st).status, name)
    decreases |files|
  {
    if files != [] {
      var init := files[..|files| - 1];
      var mid := Run(init, st);
      RunGrows(init, st);
      StepOutcome(mid, files[|files| - 1]);
      StepResults(mid, files[|files| - 1]);
      forall name ensures DuplicateCount(st.status, name) <= DuplicateCount(Run(files, st).status, name) {
        StepDuplicates(mid, files[|files| - 1], name);
      }
    }
  }

  /** A walk selects exactly the paths of its files. */
  lemma {:induction false} RunSelected(files: seq<FileEntry>, st: ScanState)
    ensures Run(files, st).status.selectedDocuments == st.status.selectedDocuments + Paths(files)
    decreases |files|
  {
    if files != [] {
      var init := files[..|files| - 1];
      RunSelected(init, st);
      StepOutcome(Run(init, st), files[|files| - 1]);
      assert Paths(files) == Paths(init) + {files[|files| - 1].path} by {
        forall p | p in Paths(files) ensures p in Paths(init) + {files[|files| - 1].path} {
          var i :| 0 <= i < |files| && files[i].path == p;
          if i < |files| - 1 {
            assert init[i] == files[i];
          }
        }
        forall p | p in Paths(init) ensures p in Paths(files) {
          var i :| 0 <= i < |init| && init[i].path == p;
          assert files[i] == init[i];
        }
      }
    }
  }

  /** Every visited file ends up read or not read. */
  lemma {:induction false} RunClassifiesEveryFile(files: seq<FileEntry>, st: ScanState)
    ensures forall i | 0 <= i < |files| ::
              files[i].path in Run(files, st).status.readDocuments + Run(files, st).status.notReadDocuments
    decreases |files|
  {
    if files != [] {
      var init := files[..|files| - 1];
      var last := files[|files| - 1];
      RunClassifiesEveryFile(init, st);
      StepOutcome(Run(init, st), last);
      forall i | 0 <= i < |files| - 1
        ensures files[i].path in Run(files, st).status.readDocuments + Run(files, st).status.notReadDocuments
      {
        assert init[i] == files[i];
      }
    }
  }

  /** Any walk keeps the ledger invariants. */
  lemma {:induction false} RunKeepsInvariant(files: seq<FileEntry>, st: ScanState)
    requires Consistent(st.status) && Covered(st.status)
    ensures Consistent(Run(files, st).status) && Covered(Run(files, st).status)
    decreases |files|
  {
    if files != [] {
      var init := files[..|files| - 1];
      RunKeepsInvariant(init, st);
      StepKeepsInvariant(Run(init, st), files[|files| - 1]);
    }
  }

  /** A walk over distinct, not yet selected paths leaves every document in
      at most one of the outcome sets. */
  lemma {:induction false} RunDisjoint(files: seq<FileEntry>, st: ScanState)
    requires Consistent(st.status) && Covered(st.status) && Disjoint(st.status)
    requires DistinctPaths(files)
    requires Paths(files) !! st.status.selectedDocuments
    ensures Disjoint(Run(files, st).status)
    decreases |files|
  {
    if files != [] {
      var init := files[..|files| - 1];
      var last := files[|files| - 1];
      assert DistinctPaths(init) by {
        forall i, j | 0 <= i < j < |init| ensures init[i].path != init[j].path {
          assert init[i] == files[i] && init[j] == files[j];
        }
      }
      assert Paths(init) <= Paths(files) by {
        forall p | p in Paths(init) ensures p in Paths(files) {
          var i :| 0 <= i < |init| && init[i].path == p;
          assert files[i] == init[i];
        }
      }
      RunDisjoint(init, st);
      RunKeepsInvariant(init, st);
      RunSelected(init, st);
      assert last.path in Paths(files);
      assert last.path !in Paths(init) by {
        forall i | 0 <= i < |init| ensures init[i].path != last.path {
          assert init[i] == files[i];
        }
      }
      StepKeepsDisjoint(Run(init, st), last);
    }
  }

  // ---------------------------------------------------------------------
  // Scenarios
  // ---------------------------------------------------------------------

  /** A walk over two files is two visits. */
  lemma RunPair(f: FileEntry, g: FileEntry, st: ScanState)
    ensures Run([f, g], st) == Step(Step(st, f), g)
  {
    assert [f][..0] == [];
    assert Run([f], st) == Step(st, f);
    assert [f, g][..1] == [f];
  }

  /** Two documents carrying the same name: the first is accepted and its
      date kept, the second is a read error and the name's duplicate count
      goes up by one. */
  lemma DuplicatePair(f: FileEntry, g: FileEntry, st: ScanState, name: string, d1: string, d2: string)
    requires f.load.Loaded? && ExtractRecord(f.load.doc, f.fileName) == Success([(name, d1)])
    requires g.load.Loaded? && ExtractRecord(g.load.doc, g.fileName) == Success([(name, d2)])
    requires name !in st.pdfData
    ensures var t := Run([f, g], st);
      && t.pdfData == st.pdfData[name := d1]
      && DuplicateCount(t.status, name) == DuplicateCount(st.status, name) + 1
      && g.path in t.status.documentsWithErrors
      && f.path in t.status.documentsWithoutErrors
  {
    var mid := Step(st, f);
    RunPair(f, g, st);
    JudgeCases(f, st.pdfData);
    StepResults(st, f);
    StepDuplicates(st, f, name);
    StepOutcome(st, f);
    JudgeCases(g, mid.pdfData);
    StepDuplicates(mid, g, name);
    StepOutcome(mid, g);
  }

  /** Without resetCounters between them, a second walk over the same file
      can put it on both sides: first read with an error, then read
      without. The ledger's disjointness rests on every path being visited
      once. */
  lemma SamePathTwice(f: FileEntry, g: FileEntry, st: ScanState)
    requires f.path == g.path
    requires Judge(f, st.pdfData).Rejected?
    requires Judge(g, Step(st, f).pdfData).Accepted?
    ensures var t := Run([f, g], st).status;
      f.path in t.documentsWithErrors * t.documentsWithoutErrors
  {
    var mid := Step(st, f);
    RunPair(f, g, st);
    StepOutcome(st, f);
    StepOutcome(mid, g);
  }

  /** The common way to visit a path twice: two scanFile calls without
      resetCounters between them reach the same file, for instance because
      the input names one file twice, or a directory and a file inside it
      (one walkFileTree visits each path once; by RunAppend, two walks are
      Run([f], Run([f], st)) == Run([f, f], st)). The file is accepted the
      first time and rejected the second time as a duplicate of its own
      name. It then sits on both sides of the ledger, and its name's
      duplicate count goes up by one. */
  lemma SameFileTwice(f: FileEntry, st: ScanState)
    requires Judge(f, st.pdfData).Accepted?
    ensures var t, name := Run([f, f], st).status, Judge(f, st.pdfData).record[0].0;
      && f.path in t.documentsWithErrors * t.documentsWithoutErrors
      && DuplicateCount(t, name) == DuplicateCount(st.status, name) + 1
  {
    var mid := Step(st, f);
    var name := Judge(f, st.pdfData).record[0].0;
    RunPair(f, f, st);
    JudgeCases(f, st.pdfData);
    StepResults(st, f);
    StepOutcome(st, f);
    JudgeCases(f, mid.pdfData);
    StepDuplicates(st, f, name);
    StepDuplicates(mid, f, name);
    StepOutcome(mid, f);
  }
}
