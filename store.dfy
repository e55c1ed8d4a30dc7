/**
  The session's record store: the list of records that the entry option
  extends and the edit option overwrites in place.
 */
module RecordStore {
  import opened Records

  class Store {
    /** The records in insertion order; the 1-based display index is the position plus one. */
    var records: seq<Record>

    /** The session starts with an empty list. */
    constructor ()
      ensures records == []
    {
      records := [];
    }

    /**
      Bulk entry: the user asks for numWeeks entries and then types them in.
      supply holds the validated entries the prompts produce, in the order
      they are typed; a negative or zero count collects nothing.
     */
    method GetUserInput(numWeeks: int, supply: seq<Record>)
      requires numWeeks <= |supply|
      modifies this
      ensures numWeeks <= 0 ==> records == old(records)
      ensures numWeeks > 0 ==> records == old(records) + supply[..numWeeks]
      ensures |records| == |old(records)| + (if numWeeks > 0 then numWeeks else 0)
      ensures forall i :: 0 <= i < |old(records)| ==> records[i] == old(records)[i]
      ensures old(AllValid(records)) && AllValid(supply) ==> AllValid(records)
    {
      var n := if numWeeks > 0 then numWeeks else 0;
      for k := 0 to n
        invariant records == old(records) + supply[..k]
      {
        assert supply[..k + 1] == supply[..k] + [supply[k]];
        records := records + [supply[k]];
      }
      assert n == 0 ==> supply[..n] == [];
    }

    /**
      Edit by display number: when number - 1 is a position of the store, that
      record's week, energy and weather are overwritten with replacement's;
      otherwise, and always on an empty store, nothing changes.
     */
    method EditData(number: int, replacement: Record) returns (edited: bool)
      modifies this
      ensures edited <==> 0 <= number - 1 < |old(records)|
      ensures |records| == |old(records)|
      ensures edited ==> records[number - 1] == replacement
      ensures forall j :: 0 <= j < |records| && j != number - 1 ==> records[j] == old(records)[j]
      ensures !edited ==> records == old(records)
      ensures old(AllValid(records)) && ValidRecord(replacement) ==> AllValid(records)
    {
      if records == [] {
        return false;
      }
      var entry := number - 1;
      if 0 <= entry < |records| {
        records := records[entry := replacement];
        edited := true;
      } else {
        edited := false;
      }
    }
  }
}
