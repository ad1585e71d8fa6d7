/**
 * The node of the mod-list tree view and the name ordering used by
 * `OrderBy(i => i.Name)`. The order here is ordinal (character by
 * character); `OrderBy` is a stable sort, modelled by an insertion sort that
 * places a later element after every earlier one with an equal or smaller key.
 */
module Categories {
  import opened Wrappers
  import opened ItemClassifier

  /**
   * A tree node: its display name, the item of a leaf, and its children in
   * display order. The parent link is positional (see `ModListViewModels`).
   */
  datatype Category = Category(name: string, item: Option<GenericItem>, children: seq<Category>)

  /** A childless node without an item. */
  function Stub(name: string): Category {
    Category(name, None, [])
  }

  function NameOf(c: Category): string {
    c.name
  }

  function Same(s: string): string {
    s
  }

  /** Ordinal string order: character by character, a proper prefix first. */
  predicate NameLe(a: string, b: string) {
    |a| == 0 || (|b| > 0 && (a[0] < b[0] || (a[0] == b[0] && NameLe(a[1..], b[1..]))))
  }

  lemma {:induction false} NameLeTotal(a: string, b: string)
    ensures NameLe(a, b) || NameLe(b, a)
  {
    if |a| > 0 && |b| > 0 && a[0] == b[0] {
      NameLeTotal(a[1..], b[1..]);
    }
  }

  lemma {:induction false} NameLeTransitive(a: string, b: string, c: string)
    requires NameLe(a, b) && NameLe(b, c)
    ensures NameLe(a, c)
  {
    if |a| > 0 && a[0] == b[0] && b[0] == c[0] {
      NameLeTransitive(a[1..], b[1..], c[1..]);
    }
  }

  lemma {:induction false} NameLeAntisymmetric(a: string, b: string)
    requires NameLe(a, b) && NameLe(b, a)
    ensures a == b
  {
    if |a| > 0 {
      NameLeAntisymmetric(a[1..], b[1..]);
      assert a == [a[0]] + a[1..] && b == [b[0]] + b[1..];
    }
  }

  predicate SortedBy<T>(s: seq<T>, key: T -> string) {
    forall i, j | 0 <= i < j < |s| :: NameLe(key(s[i]), key(s[j]))
  }

  /** Every key in `s` is at most `k`. */
  predicate KeysAtMost<T>(s: seq<T>, k: string, key: T -> string) {
    forall i | 0 <= i < |s| :: NameLe(key(s[i]), k)
  }

  /** Places `x` after the last element whose key is not above `x`'s key. */
  function InsertBy<T>(x: T, s: seq<T>, key: T -> string): (r: seq<T>)
    requires SortedBy(s, key)
    ensures SortedBy(r, key)
    ensures multiset(r) == multiset(s) + multiset{x}
    ensures |r| == |s| + 1
    decreases |s|, 1
  {
    if s == [] then [x]
    else
      var last := s[|s| - 1];
      if NameLe(key(last), key(x)) then
        assert KeysAtMost(s, key(x), key) by {
          forall i | 0 <= i < |s| ensures NameLe(key(s[i]), key(x)) {
            if i < |s| - 1 {
              NameLeTransitive(key(s[i]), key(last), key(x));
            }
          }
        }
        AppendSorted(s, x, key);
        s + [x]
      else
        NameLeTotal(key(last), key(x));
        var init := s[..|s| - 1];
        assert s == init + [last];
        var front := InsertBy(x, init, key);
        assert KeysAtMost(front, key(last), key) by {
          InsertKeepsBound(x, init, key(last), key);
        }
        assert multiset(s) == multiset(init) + multiset{last};
        AppendSorted(front, last, key);
        front + [last]
  }

  /** Appending an element whose key bounds every key keeps a sequence sorted. */
  lemma AppendSorted<T>(s: seq<T>, x: T, key: T -> string)
    requires SortedBy(s, key) && KeysAtMost(s, key(x), key)
    ensures SortedBy(s + [x], key)
  {
    assert forall i | 0 <= i < |s| + 1 :: (s + [x])[i] == if i < |s| then s[i] else x;
  }

  lemma {:induction false} InsertKeepsBound<T>(x: T, s: seq<T>, k: string, key: T -> string)
    requires SortedBy(s, key) && KeysAtMost(s, k, key) && NameLe(key(x), k)
    ensures KeysAtMost(InsertBy(x, s, key), k, key)
    decreases |s|, 2
  {
    if s == [] {
      assert InsertBy(x, s, key) == [x];
    } else {
      var last := s[|s| - 1];
      if NameLe(key(last), key(x)) {
        var r := s + [x];
        assert InsertBy(x, s, key) == r;
        assert forall i | 0 <= i < |r| :: r[i] == if i < |s| then s[i] else x;
      } else {
        var init := s[..|s| - 1];
        assert SortedBy(init, key) && KeysAtMost(init, k, key);
        InsertKeepsBound(x, init, k, key);
        var front := InsertBy(x, init, key);
        var r := front + [last];
        assert InsertBy(x, s, key) == r;
        assert forall i | 0 <= i < |r| :: r[i] == if i < |front| then front[i] else last;
      }
    }
  }

  /** `OrderBy(key)`: the elements rearranged into ascending key order. */
  function SortBy<T>(s: seq<T>, key: T -> string): (r: seq<T>)
    ensures SortedBy(r, key)
    ensures multiset(r) == multiset(s)
    ensures |r| == |s|
  {
    if s == [] then []
    else
      assert s == s[..|s| - 1] + [s[|s| - 1]];
      InsertBy(s[|s| - 1], SortBy(s[..|s| - 1], key), key)
  }

  /** The input was sorted already (e.g. a single element): sorting changes nothing. */
  lemma {:induction false} SortBySorted<T>(s: seq<T>, key: T -> string)
    requires SortedBy(s, key)
    ensures SortBy(s, key) == s
  {
    if s != [] {
      var init, x := s[..|s| - 1], s[|s| - 1];
      assert s == init + [x];
      assert SortedBy(init, key) by {
        forall i, j | 0 <= i < j < |init| ensures NameLe(key(init[i]), key(init[j])) {
          assert init[i] == s[i] && init[j] == s[j];
        }
      }
      SortBySorted(init, key);
      assert SortBy(s, key) == InsertBy(x, init, key);
      if |s| > 1 {
        assert NameLe(key(init[|init| - 1]), key(x));
        assert InsertBy(x, init, key) == init + [x];
      }
    }
  }
}
