/** The ordering std::set<std::string> keeps its elements in: lexicographic
    comparison of character codes, a proper prefix coming first. */
module StringOrder {

  predicate Less(a: string, b: string): (less: bool)
    ensures less ==> a != b
    ensures |a| < |b| && a == b[..|a|] ==> less
  {
    if a == [] then b != []
    else if b == [] then false
    else a[0] < b[0] || (a[0] == b[0] && Less(a[1..], b[1..]))
  }

  lemma {:induction false} LessIrreflexive(a: string)
    ensures !Less(a, a)
  {
    if a != [] {
      LessIrreflexive(a[1..]);
    }
  }

  lemma {:induction false} LessTransitive(a: string, b: string, c: string)
    requires Less(a, b) && Less(b, c)
    ensures Less(a, c)
  {
    if a != [] && b != [] && c != [] && a[0] == b[0] && b[0] == c[0] {
      LessTransitive(a[1..], b[1..], c[1..]);
    }
  }

  lemma {:induction false} LessTotal(a: string, b: string)
    requires a != b
    ensures Less(a, b) || Less(b, a)
  {
    if a != [] && b != [] && a[0] == b[0] {
      assert a == [a[0]] + a[1..] && b == [b[0]] + b[1..];
      LessTotal(a[1..], b[1..]);
    }
  }

  /** `w` is the first element of `s` in set order. */
  predicate IsFirst(w: string, s: set<string>)
  {
    w in s && forall v :: v in s ==> v == w || Less(w, v)
  }

  /** Every finite non-empty set of strings has a first element. */
  lemma {:induction false} FirstExists(s: set<string>)
    requires s != {}
    ensures exists w :: IsFirst(w, s)
    decreases |s|
  {
    var x :| x in s;
    if s != {x} {
      var rest := s - {x};
      FirstExists(rest);
      var m :| IsFirst(m, rest);
      if Less(x, m) {
        forall v | v in s && v != x
          ensures Less(x, v)
        {
          if v != m { LessTransitive(x, m, v); }
        }
        assert IsFirst(x, s);
      } else {
        LessTotal(x, m);
        assert IsFirst(m, s);
      }
    } else {
      assert IsFirst(x, s);
    }
  }

  /** A sequence in strictly ascending set order, as produced by iterating a std::set. */
  ghost predicate StrictlyAscending(ws: seq<string>)
  {
    forall i, j :: 0 <= i < j < |ws| ==> Less(ws[i], ws[j])
  }

  /** Strictly ascending sequences hold no duplicates. */
  lemma StrictlyAscendingDistinct(ws: seq<string>)
    requires StrictlyAscending(ws)
    ensures forall i, j :: 0 <= i < j < |ws| ==> ws[i] != ws[j]
  {
    forall i, j | 0 <= i < j < |ws|
      ensures ws[i] != ws[j]
    {
      LessIrreflexive(ws[i]);
    }
  }
}
