// `SplitOnIter` of the common crate: an iterator adaptor that yields the
// groups of an underlying iterator's items between occurrences of a
// separator, with or without the separator at the end of each group.
module SplitOn {
  import opened Wrappers
  import Text

  /** The index of the first sep in s, or |s| when there is none. */
  function Position<T(==)>(s: seq<T>, sep: T): (p: nat)
    ensures p <= |s|
    ensures p < |s| ==> s[p] == sep
    ensures forall i :: 0 <= i < p ==> s[i] != sep
  {
    if s == [] then 0
    else if s[0] == sep then 0
    else 1 + Position(s[1..], sep)
  }

  /**
   * One call of `next` on the remaining items s: the group it returns and
   * the items left behind it.
   */
  function NextOf<T(==)>(s: seq<T>, sep: T, inclusive: bool): (Option<seq<T>>, seq<T>)
  {
    var p := Position(s, sep);
    if p < |s| then (Some(s[..p] + (if inclusive then [sep] else [])), s[p + 1..])
    else if s == [] then (None, [])
    else (Some(s), [])
  }

  /** `next` consumes at least one item unless nothing is left. */
  lemma NextProgress<T>(s: seq<T>, sep: T, inclusive: bool)
    ensures NextOf(s, sep, inclusive).0 == None <==> s == []
    ensures s != [] ==> |NextOf(s, sep, inclusive).1| < |s|
    ensures s == [] ==> NextOf(s, sep, inclusive).1 == []
  {
  }

  /** Every group the iterator yields, one `next` after another until it returns None. */
  function Groups<T(==)>(s: seq<T>, sep: T, inclusive: bool): seq<seq<T>>
    decreases |s|
  {
    NextProgress(s, sep, inclusive);
    match NextOf(s, sep, inclusive).0
    case None => []
    case Some(g) => [g] + Groups(NextOf(s, sep, inclusive).1, sep, inclusive)
  }

  /** A group that stops at a separator: the items before it, then the separator if inclusive. */
  lemma NextAtSeparator<T>(a: seq<T>, sep: T, b: seq<T>, inclusive: bool)
    requires sep !in a
    ensures NextOf(a + [sep] + b, sep, inclusive) == (Some(if inclusive then a + [sep] else a), b)
  {
    var s := a + [sep] + b;
    var p := Position(s, sep);
    assert s[|a|] == sep;
    assert p == |a|;
    assert s[..p] == a && s[p + 1..] == b;
    assert a + [] == a;
  }

  /** At the end of the items: a non-empty tail is one last group, an empty one gives None. */
  lemma NextAtEnd<T>(s: seq<T>, sep: T, inclusive: bool)
    requires sep !in s
    ensures s == [] ==> NextOf(s, sep, inclusive).0 == None
    ensures s != [] ==> NextOf(s, sep, inclusive) == (Some(s), [])
  {
  }

  /** What `str::split` yields, less the empty piece after a final separator. */
  function DropEmptyLast<T>(parts: seq<seq<T>>): seq<seq<T>>
  {
    if |parts| > 0 && parts[|parts| - 1] == [] then parts[..|parts| - 1] else parts
  }

  /**
   * Exclusive mode yields the pieces between separators, without them: the
   * pieces `str::split` yields, less an empty last piece.
   */
  lemma {:induction false} ExclusiveIsSplit<T>(s: seq<T>, sep: T)
    ensures Groups(s, sep, false) == DropEmptyLast(Text.Split(s, sep))
    decreases |s|
  {
    var p := Position(s, sep);
    if p < |s| {
      var a, b := s[..p], s[p + 1..];
      assert s == a + [sep] + b;
      assert sep !in a by {
        forall i | 0 <= i < |a| ensures a[i] != sep { assert a[i] == s[i]; }
      }
      NextAtSeparator(a, sep, b, false);
      Text.SplitPrefix(a, b, sep);
      ExclusiveIsSplit(b, sep);
      var rest := Text.Split(b, sep);
      assert ([a] + rest)[..|[a] + rest| - 1] == [a] + rest[..|rest| - 1];
    } else {
      assert sep !in s by {
        forall i | 0 <= i < |s| ensures s[i] != sep { }
      }
      NextAtEnd(s, sep, false);
      Text.SplitNoSep(s, sep);
    }
  }

  /** The separator is never in an exclusive group. */
  lemma ExclusiveFree<T>(s: seq<T>, sep: T)
    ensures forall k :: 0 <= k < |Groups(s, sep, false)| ==> sep !in Groups(s, sep, false)[k]
  {
    ExclusiveIsSplit(s, sep);
  }

  /** The groups one after the other. */
  function Concat<T>(groups: seq<seq<T>>): seq<T>
  {
    if groups == [] then [] else groups[0] + Concat(groups[1..])
  }

  /** In inclusive mode nothing is lost: the groups joined again are the items. */
  lemma {:induction false} InclusiveConcat<T>(s: seq<T>, sep: T)
    ensures Concat(Groups(s, sep, true)) == s
    decreases |s|
  {
    var p := Position(s, sep);
    if p < |s| {
      var a, b := s[..p], s[p + 1..];
      assert s == a + [sep] + b;
      assert sep !in a by {
        forall i | 0 <= i < |a| ensures a[i] != sep { assert a[i] == s[i]; }
      }
      NextAtSeparator(a, sep, b, true);
      InclusiveConcat(b, sep);
      var gs := Groups(s, sep, true);
      assert gs == [a + [sep]] + Groups(b, sep, true);
      assert gs[1..] == Groups(b, sep, true);
    } else {
      assert sep !in s by {
        forall i | 0 <= i < |s| ensures s[i] != sep { }
      }
      NextAtEnd(s, sep, true);
      if s != [] {
        assert Groups(s, sep, true) == [s];
        assert [s][1..] == [];
        assert s + [] == s;
      }
    }
  }

  /** A group of inclusive mode: not empty, and the separator, if anywhere, only at its end. */
  predicate InclusiveGroup<T(==)>(g: seq<T>, sep: T)
  {
    g != [] && sep !in g[..|g| - 1]
  }

  /** Inclusive mode ends every group but the last with the separator; no group holds it elsewhere. */
  lemma {:induction false} InclusiveShape<T>(s: seq<T>, sep: T)
    ensures forall k :: 0 <= k < |Groups(s, sep, true)| ==>
      InclusiveGroup(Groups(s, sep, true)[k], sep) &&
      (k < |Groups(s, sep, true)| - 1 ==> Groups(s, sep, true)[k][|Groups(s, sep, true)[k]| - 1] == sep)
    decreases |s|
  {
    var p := Position(s, sep);
    if p < |s| {
      var a, b := s[..p], s[p + 1..];
      assert s == a + [sep] + b;
      assert sep !in a by {
        forall i | 0 <= i < |a| ensures a[i] != sep { assert a[i] == s[i]; }
      }
      NextAtSeparator(a, sep, b, true);
      InclusiveShape(b, sep);
      var gs := Groups(s, sep, true);
      assert gs == [a + [sep]] + Groups(b, sep, true);
      assert (a + [sep])[..|a + [sep]| - 1] == a;
    } else {
      assert sep !in s by {
        forall i | 0 <= i < |s| ensures s[i] != sep { }
      }
      NextAtEnd(s, sep, true);
      if s != [] {
        assert Groups(s, sep, true) == [s];
        assert forall x :: x in s[..|s| - 1] ==> x in s;
      }
    }
  }

  /** `SplitOnIter`: the items the underlying iterator has left, the separator and the mode. */
  class SplitOnIter<T(==)> {
    var iter: seq<T>
    const separator: T
    const inclusive: bool

    /** `SplitOnIter::new`. */
    constructor (iter: seq<T>, separator: T, inclusive: bool)
      ensures this.iter == iter && this.separator == separator && this.inclusive == inclusive
    {
      this.iter := iter;
      this.separator := separator;
      this.inclusive := inclusive;
    }

    /** `next`: items up to the next separator (kept if inclusive), or the non-empty rest, or None. */
    method Next() returns (r: Option<seq<T>>)
      modifies this
      ensures (r, iter) == NextOf(old(iter), separator, inclusive)
    {
      ghost var s := iter;
      var values := [];
      while iter != []
        invariant s == values + iter
        invariant forall i :: 0 <= i < |values| ==> values[i] != separator
        decreases |iter|
      {
        var val := iter[0];
        iter := iter[1..];
        if val == separator {
          assert s == values + [separator] + iter;
          NextAtSeparator(values, separator, iter, inclusive);
          if inclusive {
            values := values + [val];
          }
          return Some(values);
        }
        values := values + [val];
      }
      assert s == values;
      assert separator !in s by {
        forall i | 0 <= i < |s| ensures s[i] != separator { assert s[i] == values[i]; }
      }
      NextAtEnd(s, separator, inclusive);
      if values == [] {
        return None;
      }
      return Some(values);
    }
  }

  /** `split_on`: wrap the items in a `SplitOnIter` for the separator and mode. */
  method SplitOnWith<T(==)>(iter: seq<T>, separator: T, inclusive: bool) returns (it: SplitOnIter<T>)
    ensures fresh(it)
    ensures it.iter == iter && it.separator == separator && it.inclusive == inclusive
  {
    it := new SplitOnIter(iter, separator, inclusive);
  }

  /** `split_on_inclusive`: `split_on` keeping the separator. */
  method SplitOnInclusive<T(==)>(iter: seq<T>, separator: T) returns (it: SplitOnIter<T>)
    ensures fresh(it)
    ensures it.iter == iter && it.separator == separator && it.inclusive
  {
    it := SplitOnWith(iter, separator, true);
  }

  /** `split_on_exclusive`: `split_on` dropping the separator. */
  method SplitOnExclusive<T(==)>(iter: seq<T>, separator: T) returns (it: SplitOnIter<T>)
    ensures fresh(it)
    ensures it.iter == iter && it.separator == separator && !it.inclusive
  {
    it := SplitOnWith(iter, separator, false);
  }
}
