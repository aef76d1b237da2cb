/**
  The outcome ledger of a scan run: which files were selected, not read,
  read, read without errors and read with errors, and how often each name
  was found more than once. The source keeps these in static fields; here
  they are the fields of one CsvErrorStatus object that every operation is
  handed, and Status is the value those fields hold at one moment.
*/
module Csv {

  datatype Status = Status(
    selectedDocuments: set<string>,
    readDocuments: set<string>,
    documentsWithErrors: set<string>,
    documentsWithoutErrors: set<string>,
    notReadDocuments: set<string>,
    duplicateData: map<string, nat>)

  /** The state right after class initialisation: everything empty. */
  const Initial := Status({}, {}, {}, {}, {}, map[])

  /** The ledger invariant: a document is read exactly when it was read with
      or without errors. */
  predicate Consistent(s: Status) {
    s.readDocuments == s.documentsWithErrors + s.documentsWithoutErrors
  }

  /** Every document that was classified was selected first. */
  predicate Covered(s: Status) {
    s.readDocuments + s.notReadDocuments <= s.selectedDocuments
  }

  // ---------------------------------------------------------------------
  // The transitions, one per mutation in the source
  // ---------------------------------------------------------------------

  /** selectedDocuments.add(d) */
  function WithSelected(s: Status, d: string): Status {
    s.(selectedDocuments := s.selectedDocuments + {d})
  }

  /** notReadDocuments.add(d) */
  function WithNotRead(s: Status, d: string): Status {
    s.(notReadDocuments := s.notReadDocuments + {d})
  }

  /** addReadSuccess(d) */
  function WithReadSuccess(s: Status, d: string): Status {
    s.(readDocuments := s.readDocuments + {d},
       documentsWithoutErrors := s.documentsWithoutErrors + {d})
  }

  /** addReadError(d) */
  function WithReadError(s: Status, d: string): Status {
    s.(readDocuments := s.readDocuments + {d},
       documentsWithErrors := s.documentsWithErrors + {d})
  }

  /** resetCounters(): the five sets are emptied; duplicateData is kept. */
  function Cleared(s: Status): Status {
    s.(selectedDocuments := {}, readDocuments := {}, notReadDocuments := {},
       documentsWithErrors := {}, documentsWithoutErrors := {})
  }

  /** The collision count of name; 0 when it never collided. */
  function DuplicateCount(s: Status, name: string): nat {
    if name in s.duplicateData then s.duplicateData[name] else 0
  }

  /** addDuplicateData(name): duplicateData.merge(name, 1, Integer::sum). */
  function WithDuplicate(s: Status, name: string): Status {
    var counts := s.duplicateData;
    s.(duplicateData := counts[name := if name in counts then counts[name] + 1 else 1])
  }

  // ---------------------------------------------------------------------
  // What the transitions keep
  // ---------------------------------------------------------------------

  /** The read set stays the union of its two parts under both add methods. */
  lemma AddsKeepConsistent(s: Status, d: string)
    requires Consistent(s)
    ensures Consistent(WithReadSuccess(s, d)) && Consistent(WithReadError(s, d))
    ensures Consistent(WithSelected(s, d)) && Consistent(WithNotRead(s, d))
    ensures Consistent(WithDuplicate(s, d))
  {
  }

  /** After a reset the invariant holds whatever the state before, all five
      sets are empty, and the duplicate counts are those of before. */
  lemma ClearedIsConsistent(s: Status)
    ensures Consistent(Cleared(s)) && Covered(Cleared(s))
    ensures Cleared(s).selectedDocuments == {} && Cleared(s).readDocuments == {}
    ensures Cleared(s).notReadDocuments == {} && Cleared(s).documentsWithErrors == {}
    ensures Cleared(s).documentsWithoutErrors == {}
    ensures Cleared(s).duplicateData == s.duplicateData
  {
  }

  /** resetCounters is idempotent. */
  lemma ClearedIdempotent(s: Status)
    ensures Cleared(Cleared(s)) == Cleared(s)
  {
  }

  /** A collision raises the count of its own name by exactly one and leaves
      every other name's count and every set alone. */
  lemma WithDuplicateCounts(s: Status, name: string, other: string)
    requires other != name
    ensures var t := WithDuplicate(s, name);
      && DuplicateCount(t, name) == DuplicateCount(s, name) + 1
      && DuplicateCount(t, other) == DuplicateCount(s, other)
      && t.(duplicateData := s.duplicateData) == s
  {
  }

  // ---------------------------------------------------------------------
  // The ledger object
  // ---------------------------------------------------------------------

  class CsvErrorStatus {
    var selectedDocuments: set<string>
    var readDocuments: set<string>
    var documentsWithErrors: set<string>
    var documentsWithoutErrors: set<string>
    var notReadDocuments: set<string>
    var duplicateData: map<string, nat>

    /** The value the fields hold. */
    function State(): Status
      reads this
    {
      Status(selectedDocuments, readDocuments, documentsWithErrors,
             documentsWithoutErrors, notReadDocuments, duplicateData)
    }

    /** Both ledger invariants: read = with + without, and every classified
        document was selected. */
    ghost predicate Valid()
      reads this
    {
      Consistent(State()) && Covered(State())
    }

    /** The static initialisers: every set and the map start empty. */
    constructor ()
      ensures State() == Initial && Valid()
    {
      selectedDocuments, readDocuments, documentsWithErrors := {}, {}, {};
      documentsWithoutErrors, notReadDocuments, duplicateData := {}, {}, map[];
    }

    method AddReadSuccess(documentName: string)
      modifies this
      ensures State() == WithReadSuccess(old(State()), documentName)
      ensures old(Valid()) && documentName in old(selectedDocuments) ==> Valid()
    {
      readDocuments := readDocuments + {documentName};
      documentsWithoutErrors := documentsWithoutErrors + {documentName};
    }

    method AddReadError(documentName: string)
      modifies this
      ensures State() == WithReadError(old(State()), documentName)
      ensures old(Valid()) && documentName in old(selectedDocuments) ==> Valid()
    {
      readDocuments := readDocuments + {documentName};
      documentsWithErrors := documentsWithErrors + {documentName};
    }

    method ResetCounters()
      modifies this
      ensures State() == Cleared(old(State()))
      ensures Valid()
    {
      selectedDocuments := {};
      readDocuments := {};
      notReadDocuments := {};
      documentsWithErrors := {};
      documentsWithoutErrors := {};
    }

    method AddDuplicateData(name: string)
      modifies this
      ensures State() == WithDuplicate(old(State()), name)
      ensures old(Valid()) ==> Valid()
    {
      var count := if name in duplicateData then duplicateData[name] + 1 else 1;
      duplicateData := duplicateData[name := count];
    }
  }
}
