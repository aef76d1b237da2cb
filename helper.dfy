/**
  The two checks a freshly extracted record goes through before it is
  merged: correctness (not empty, nothing blank) and uniqueness (its name is
  not yet in the result map). A HashMap is given as its entries in iteration
  order, so "the first key" and "the first value" are those of entry 0.
*/
module Helper {
  import opened Wrappers
  import opened JavaLib
  import opened Exceptions
  import opened Csv

  /** A HashMap<String, String> as its entries in iteration order. */
  type Entries = seq<(string, string)>

  /** checkDataCorrectness: throws when the map is empty or its first key or
      first value is blank, and returns normally otherwise. The file path of
      the source's signature only feeds the message and is left out. */
  function CheckDataCorrectness(readData: Entries): (r: Outcome<Failure>)
    ensures r == Pass <==> readData != [] && !IsBlank(readData[0].0) && !IsBlank(readData[0].1)
    ensures readData == [] ==> r == Fail(ErroneousData(NoData))
    ensures readData != [] && r.Fail? ==> r == Fail(ErroneousData(BlankData))
  {
    if readData == [] then Fail(ErroneousData(NoData))
    else if IsBlank(readData[0].0) || IsBlank(readData[0].1) then Fail(ErroneousData(BlankData))
    else Pass
  }

  /** The verdict of checkDataUniqueness: an empty map passes; otherwise the
      first name must not be a key of the result map yet. The result map
      holds no null values, so from.get(name) != null is membership. */
  function UniquenessVerdict(data: Entries, from: map<string, string>): (r: Outcome<Failure>)
    ensures r.Fail? <==> data != [] && data[0].0 in from
    ensures r.Fail? ==> r.error == DuplicateData(data[0].0)
  {
    if data != [] && data[0].0 in from then Fail(DuplicateData(data[0].0)) else Pass
  }

  /** checkDataUniqueness: on a collision, bumps the name's duplicate count
      in the ledger and throws; otherwise it returns and the ledger is left
      as it was. Neither map is changed: both are values here. */
  method CheckDataUniqueness(data: Entries, from: map<string, string>, status: CsvErrorStatus)
    returns (r: Outcome<Failure>)
    modifies status
    ensures r == UniquenessVerdict(data, from)
    ensures status.State() ==
              if r.Fail? then WithDuplicate(old(status.State()), data[0].0) else old(status.State())
  {
    if data == [] {
      return Pass;
    }
    var name := data[0].0;
    if name in from {
      status.AddDuplicateData(name);
      return Fail(DuplicateData(name));
    }
    return Pass;
  }

  /** A record that passed the uniqueness check adds its name without
      touching any value already in the result map: the first value seen for
      a name survives. */
  lemma {:induction false} UniqueMergeKeepsExisting(data: Entries, from: map<string, string>)
    requires |data| == 1
    requires UniquenessVerdict(data, from) == Pass
    ensures IsSubmap(from, PutAll(from, data))
    ensures PutAll(from, data) == from[data[0].0 := data[0].1]
    ensures data[0].0 !in from
  {
    assert data[1..] == [];
  }
}
