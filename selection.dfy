/// Removing selected rows from the task table.
module Selection {

  /// Qt's `QTableWidget.removeRow(k)`: drops row `k`; an index past the
  /// last row leaves the table as it is.
  function RemoveAt<T>(s: seq<T>, k: nat): (r: seq<T>)
    ensures |r| == if k < |s| then |s| - 1 else |s|
    ensures forall i :: 0 <= i < |r| ==> r[i] == if i < k then s[i] else s[i + 1]
  {
    if k < |s| then s[..k] + s[k + 1..] else s
  }

  /// The rows of `s` whose index (counting the first row as `base`) is not
  /// in `selected`, in their original order.
  function UnselectedFrom<T>(s: seq<T>, selected: set<nat>, base: nat): seq<T>
    decreases |s|
  {
    if s == [] then []
    else (if base in selected then [] else [s[0]]) + UnselectedFrom(s[1..], selected, base + 1)
  }

  /// The rows of `s` whose index is not in `selected`.
  function Unselected<T>(s: seq<T>, selected: set<nat>): seq<T>
  {
    UnselectedFrom(s, selected, 0)
  }

  /// How many indices in `[lo, hi)` are not selected.
  function KeptBetween(selected: set<nat>, lo: nat, hi: nat): nat
    decreases hi - lo
  {
    if lo >= hi then 0
    else (if lo in selected then 0 else 1) + KeptBetween(selected, lo + 1, hi)
  }

  /// The selected indices in `[lo, hi)`.
  function SelectedBetween(selected: set<nat>, lo: nat, hi: nat): set<nat>
  {
    set i | i in selected && lo <= i < hi
  }

  /// Only the selected indices at or after `base` matter.
  lemma {:induction false} UnselectedFromCongruent<T>(s: seq<T>, a: set<nat>, b: set<nat>, base: nat)
    requires forall i :: base <= i ==> (i in a <==> i in b)
    ensures UnselectedFrom(s, a, base) == UnselectedFrom(s, b, base)
    decreases |s|
  {
    if s != [] {
      UnselectedFromCongruent(s[1..], a, b, base + 1);
    }
  }

  lemma RemoveAtCons<T>(x: T, s: seq<T>, k: nat)
    ensures RemoveAt([x] + s, k + 1) == [x] + RemoveAt(s, k)
  {
    var lhs, rhs := RemoveAt([x] + s, k + 1), [x] + RemoveAt(s, k);
    assert |lhs| == |rhs|;
    forall i | 0 <= i < |lhs|
      ensures lhs[i] == rhs[i]
    {
      if i > 0 {
        assert rhs[i] == RemoveAt(s, k)[i - 1];
      }
    }
  }

  /// One step of the descending deletion loop: when every index deleted so
  /// far is above `m`, deleting row `m` of what is left deletes the original
  /// row `m` as well.
  lemma {:induction false} RemoveBelowSelected<T>(s: seq<T>, done: set<nat>, base: nat, m: nat)
    requires base <= m
    requires forall p :: p in done ==> m < p
    ensures RemoveAt(UnselectedFrom(s, done, base), m - base) == UnselectedFrom(s, done + {m}, base)
    decreases |s|
  {
    if s != [] {
      var rest := UnselectedFrom(s[1..], done, base + 1);
      assert base !in done;
      assert UnselectedFrom(s, done, base) == [s[0]] + rest;
      if base == m {
        UnselectedFromCongruent(s[1..], done, done + {m}, base + 1);
        assert RemoveAt([s[0]] + rest, 0) == rest;
      } else {
        RemoveBelowSelected(s[1..], done, base + 1, m);
        RemoveAtCons(s[0], rest, m - base - 1);
      }
    }
  }

  /// As many rows are kept as there are unselected indices.
  lemma {:induction false} UnselectedKeptLength<T>(s: seq<T>, selected: set<nat>, base: nat)
    ensures |UnselectedFrom(s, selected, base)| == KeptBetween(selected, base, base + |s|)
    decreases |s|
  {
    if s != [] {
      UnselectedKeptLength(s[1..], selected, base + 1);
    }
  }

  /// Every unselected row is kept, in its original order: row `i` ends up
  /// at the position given by the number of unselected rows before it.
  lemma {:induction false} UnselectedPosition<T>(s: seq<T>, selected: set<nat>, base: nat, i: nat)
    requires base <= i < base + |s| && i !in selected
    ensures KeptBetween(selected, base, i) < |UnselectedFrom(s, selected, base)|
    ensures UnselectedFrom(s, selected, base)[KeptBetween(selected, base, i)] == s[i - base]
    decreases |s|
  {
    var tail := s[1..];
    var rest := UnselectedFrom(tail, selected, base + 1);
    if i == base {
      assert UnselectedFrom(s, selected, base) == [s[0]] + rest;
    } else {
      UnselectedPosition(tail, selected, base + 1, i);
      assert tail[i - (base + 1)] == s[i - base];
      if base in selected {
        assert UnselectedFrom(s, selected, base) == rest;
      } else {
        assert UnselectedFrom(s, selected, base) == [s[0]] + rest;
      }
    }
  }

  /// The number of rows kept is the table length minus the number of
  /// distinct selected indices that name a row.
  lemma {:induction false} UnselectedLength<T>(s: seq<T>, selected: set<nat>, base: nat)
    ensures |UnselectedFrom(s, selected, base)| ==
      |s| - |SelectedBetween(selected, base, base + |s|)|
    decreases |s|
  {
    var here := SelectedBetween(selected, base, base + |s|);
    if s == [] {
      assert here == {};
    } else {
      UnselectedLength(s[1..], selected, base + 1);
      var later := SelectedBetween(selected, base + 1, base + 1 + |s[1..]|);
      if base in selected {
        assert here == later + {base};
      } else {
        assert here == later;
      }
    }
  }

  /// An empty selection, or one naming no row, keeps every row.
  lemma {:induction false} UnselectedNone<T>(s: seq<T>, selected: set<nat>, base: nat)
    requires forall i :: i in selected ==> i < base || i >= base + |s|
    ensures UnselectedFrom(s, selected, base) == s
    decreases |s|
  {
    if s != [] {
      UnselectedNone(s[1..], selected, base + 1);
      assert [s[0]] + s[1..] == s;
    }
  }
}
