/** The generated lookup as it runs: a pointer that moves along an array up to a null row. */
module Lookup {
  import opened Numerals
  import opened CppHeader
  import opened HeaderText
  import opened LookupReading
  import opened EndToEnd

  /** A string that is passed by reference. */
  class StringRef {
    var value: string

    constructor (s: string)
      ensures value == s
    {
      value := s;
    }
  }

  /** Row `end` is null, and no earlier row has a null pointer. */
  predicate Terminated(rows: seq<Row>, end: nat) {
    && end < |rows| && rows[end].first.None?
    && forall i :: 0 <= i < end ==> rows[i].first.Some? && rows[i].second.Some?
  }

  /** The walk never reads past the null row, and it is the function that was read from the header. */
  method FindEmbeddedFile(files: array<Row>, name: string, data: StringRef, ghost end: nat) returns (found: bool)
    requires Terminated(files[..], end)
    modifies data
    ensures Call(Program(files[..], WALK), name, old(data.value)) == Some((found, data.value))
    ensures files[..] == old(files[..])
    ensures !found ==> data.value == old(data.value)
    ensures !found ==> forall i :: 0 <= i < end ==> files[i].first != Some(name)
    ensures found ==> exists i :: 0 <= i < end && files[i] == Row(Some(name), Some(data.value))
                                  && forall k :: 0 <= k < i ==> files[k].first != Some(name)
  {
    ghost var program := Program(files[..], WALK);
    var p := 0;
    while files[p].first != None
      invariant 0 <= p <= end
      invariant forall k :: 0 <= k < p ==> files[k].first != Some(name)
      invariant Execute(program, name, data.value, 0) == Execute(program, name, data.value, p)
      decreases end - p
    {
      assert files[..][p] == files[p];
      if files[p].first.value == name {
        data.value := files[p].second.value;
        assert files[p] == Row(Some(name), Some(data.value));
        return true;
      }
      p := p + 1;
    }
    assert files[..][p] == files[p];
    return false;
  }

  /** Every generated table ends in the null row, just after the rows of the files. */
  lemma GeneratedTableTerminated(files: seq<File>)
    ensures Terminated(Meaning(files).rows, |files|) && |Meaning(files).rows| == |files| + 1
  {
  }
}
