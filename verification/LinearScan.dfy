/** The linear scans of src/core/common.h, against which the hash is measured. */
module LinearScans {
  import opened Common

  /** How often the linear scan of dsim_count meets the key. */
  function Occurrences(keys: seq<Uint64>, key: Uint64): nat {
    if keys == [] then 0
    else Occurrences(keys[..|keys| - 1], key) + (if keys[|keys| - 1] == key then 1 else 0)
  }

  lemma {:induction false} OccurrencesCountRows(keys: seq<Uint64>, key: Uint64, rows: set<nat>)
    requires rows == set r: nat | r < |keys| && keys[r] == key
    ensures |rows| == Occurrences(keys, key)
  {
    if keys != [] {
      var last := |keys| - 1;
      var before := keys[..last];
      var rows' := set r: nat | r < |before| && before[r] == key;
      OccurrencesCountRows(before, key, rows');
      if keys[last] == key {
        assert rows == rows' + {last};
      } else {
        assert rows == rows';
      }
    }
  }

  /** dsim_find, from a given position. */
  method LinearFind(data: seq<Uint64>, value: Uint64, from: nat) returns (pos: nat)
    requires from <= |data| < INVALID
    ensures pos == INVALID ==> value !in data[from..]
    ensures pos != INVALID ==> from <= pos < |data| && data[pos] == value && value !in data[from..pos]
  {
    pos := from;
    while pos < |data|
      invariant from <= pos <= |data| && value !in data[from..pos]
    {
      if data[pos] == value {
        break;
      }
      pos := pos + 1;
    }
    if pos == |data| {
      pos := INVALID;
    }
  }

  /** dsim_count: the oracle the hash is compared with. */
  method LinearCount(data: seq<Uint64>, value: Uint64) returns (cnt: nat)
    requires |data| < INVALID
    ensures cnt == Occurrences(data, value)
  {
    cnt := 0;
    var pos := 0;
    assert data[..0] == [];
    while true
      invariant 0 <= pos <= |data| && cnt == Occurrences(data[..pos], value)
      decreases |data| - pos
    {
      var found := LinearFind(data, value, pos);
      if found == INVALID {
        NoOccurrences(data, value, pos, |data|);
        assert data[..|data|] == data;
        break;
      }
      NoOccurrences(data, value, pos, found);
      assert data[..found + 1][..found] == data[..found];
      cnt := cnt + 1;
      pos := found + 1;
    }
  }

  lemma {:induction false} NoOccurrences(data: seq<Uint64>, value: Uint64, from: nat, end: nat)
    requires from <= end <= |data| && value !in data[from..end]
    ensures Occurrences(data[..end], value) == Occurrences(data[..from], value)
    decreases end - from
  {
    if from < end {
      assert data[from..end][end - 1 - from] == data[end - 1];
      assert data[..end][..end - 1] == data[..end - 1];
      assert forall j :: 0 <= j < end - 1 - from ==> data[from..end - 1][j] == data[from..end][j];
      NoOccurrences(data, value, from, end - 1);
    }
  }
}
