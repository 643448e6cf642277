/** Splitting a sequence at a separator element and joining pieces back with it,
    as `String.prototype.split` and `Array.prototype.join` do with a one-character
    separator. Both the gallery (lines of a document) and the contact link (lines of
    the message) are read through these. */
module Sequences {

  /** The pieces of `s` between occurrences of `sep`, empty ones included: k
      separators give k + 1 pieces (`SplitCount`), no piece contains the separator
      (`SplitAvoidsSep`), and joining them gives back `s` (`JoinSplit`). */
  function Split<T(==)>(s: seq<T>, sep: T): (parts: seq<seq<T>>)
    ensures |parts| >= 1
    decreases |s|
  {
    if s == [] then [[]]
    else
      var rest := Split(s[1..], sep);
      if s[0] == sep then [[]] + rest
      else [[s[0]] + rest[0]] + rest[1..]
  }

  /** The pieces laid end to end with one `sep` between neighbours. */
  function Join<T>(parts: seq<seq<T>>, sep: T): seq<T>
  {
    if parts == [] then []
    else if |parts| == 1 then parts[0]
    else parts[0] + [sep] + Join(parts[1..], sep)
  }

  /** No piece of a split holds the separator. */
  lemma {:induction false} SplitAvoidsSep<T>(s: seq<T>, sep: T)
    ensures forall p | p in Split(s, sep) :: sep !in p
    decreases |s|
  {
    if s != [] {
      SplitAvoidsSep(s[1..], sep);
      var rest := Split(s[1..], sep);
      if s[0] != sep {
        assert rest[0] in rest;
        forall p | p in rest[1..] ensures p in rest {
          var i :| 0 <= i < |rest[1..]| && rest[1..][i] == p;
          assert rest[i + 1] == p;
        }
      }
    }
  }

  /** A split has one piece more than the sequence has separators. */
  lemma {:induction false} SplitCount<T>(s: seq<T>, sep: T)
    ensures |Split(s, sep)| == multiset(s)[sep] + 1
    decreases |s|
  {
    if s != [] {
      SplitCount(s[1..], sep);
      assert s == [s[0]] + s[1..];
      assert multiset(s) == multiset([s[0]]) + multiset(s[1..]);
    }
  }

  /** Joining the pieces of a split gives back the original sequence. */
  lemma {:induction false} JoinSplit<T>(s: seq<T>, sep: T)
    ensures Join(Split(s, sep), sep) == s
    decreases |s|
  {
    if s != [] {
      var rest := Split(s[1..], sep);
      JoinSplit(s[1..], sep);
      if s[0] == sep {
        assert Split(s, sep) == [[]] + rest;
      } else {
        var parts := Split(s, sep);
        assert parts == [[s[0]] + rest[0]] + rest[1..];
        if |rest| == 1 {
          assert Join(parts, sep) == [s[0]] + rest[0];
        } else {
          assert parts[1..] == rest[1..];
          assert Join(rest, sep) == rest[0] + [sep] + Join(rest[1..], sep);
          assert Join(parts, sep) == [s[0]] + rest[0] + [sep] + Join(rest[1..], sep);
        }
      }
    }
  }

  /** A sequence without the separator is a single piece. */
  lemma {:induction false} SplitWithoutSep<T>(s: seq<T>, sep: T)
    requires sep !in s
    ensures Split(s, sep) == [s]
    decreases |s|
  {
    if s != [] {
      SplitWithoutSep(s[1..], sep);
      assert [s[0]] + s[1..] == s;
    }
  }

  /** A separator between `a` and `b` makes their pieces adjacent and disjoint. */
  lemma {:induction false} SplitAtSep<T>(a: seq<T>, b: seq<T>, sep: T)
    ensures Split(a + [sep] + b, sep) == Split(a, sep) + Split(b, sep)
    decreases |a|
  {
    if a == [] {
      assert a + [sep] + b == [sep] + b;
      SplitCons(sep, b, sep);
    } else {
      var tail := a[1..] + [sep] + b;
      assert a + [sep] + b == [a[0]] + tail;
      assert a == [a[0]] + a[1..];
      SplitAtSep(a[1..], b, sep);
      SplitCons(a[0], tail, sep);
      SplitCons(a[0], a[1..], sep);
      ConsPieces(a[0], Split(a[1..], sep), Split(b, sep), sep);
    }
  }

  /** The list algebra behind `SplitAtSep`: putting one element in front of the
      pieces of `ra` followed by those of `rb` changes only the pieces of `ra`. */
  lemma ConsPieces<T>(x: T, ra: seq<seq<T>>, rb: seq<seq<T>>, sep: T)
    requires |ra| >= 1
    ensures x == sep ==> [[]] + (ra + rb) == ([[]] + ra) + rb
    ensures x != sep ==>
      [[x] + (ra + rb)[0]] + (ra + rb)[1..] == ([[x] + ra[0]] + ra[1..]) + rb
  {
    assert (ra + rb)[1..] == ra[1..] + rb;
  }

  /** Split of a sequence with a known first element: a separator starts an empty
      first piece, anything else joins the first piece of the rest. */
  lemma SplitCons<T>(x: T, rest: seq<T>, sep: T)
    ensures x == sep ==> Split([x] + rest, sep) == [[]] + Split(rest, sep)
    ensures x != sep ==>
      Split([x] + rest, sep) == [[x] + Split(rest, sep)[0]] + Split(rest, sep)[1..]
  {
    assert ([x] + rest)[1..] == rest;
  }

  /** Joining separator-free pieces and then one arbitrary last piece, and splitting
      again, gives back those pieces followed by the pieces of the last one. */
  lemma {:induction false} SplitJoinThen<T>(parts: seq<seq<T>>, last: seq<T>, sep: T)
    requires forall p | p in parts :: sep !in p
    ensures Split(Join(parts + [last], sep), sep) == parts + Split(last, sep)
    decreases |parts|
  {
    if parts != [] {
      var tail := parts[1..] + [last];
      assert (parts + [last])[1..] == tail;
      assert Join(parts + [last], sep) == parts[0] + [sep] + Join(tail, sep);
      SplitAtSep(parts[0], Join(tail, sep), sep);
      SplitWithoutSep(parts[0], sep);
      SplitJoinThen(parts[1..], last, sep);
      assert [parts[0]] + parts[1..] == parts;
    }
  }

  /** Split inverts Join on non-empty lists of separator-free pieces. */
  lemma {:induction false} SplitJoin<T>(parts: seq<seq<T>>, sep: T)
    requires |parts| >= 1
    requires forall p | p in parts :: sep !in p
    ensures Split(Join(parts, sep), sep) == parts
    decreases |parts|
  {
    SplitWithoutSep(parts[0], sep);
    if |parts| >= 2 {
      assert parts[0] in parts;
      forall p | p in parts[1..] ensures sep !in p {
        assert p in parts;
      }
      SplitJoin(parts[1..], sep);
      SplitAtSep(parts[0], Join(parts[1..], sep), sep);
      assert [parts[0]] + parts[1..] == parts;
    }
  }

  /** Joining gives the empty sequence only for no pieces or one empty piece. */
  lemma JoinEmptyIff<T>(parts: seq<seq<T>>, sep: T)
    ensures Join(parts, sep) == [] <==> |parts| == 0 || (|parts| == 1 && parts[0] == [])
  {
    if |parts| >= 2 {
      assert (parts[0] + [sep] + Join(parts[1..], sep))[|parts[0]|] == sep;
    }
  }

  /** An element that is not the separator and occurs in no piece does not occur in
      the join either. */
  lemma {:induction false} JoinAvoids<T>(parts: seq<seq<T>>, sep: T, x: T)
    requires x != sep
    requires forall p | p in parts :: x !in p
    ensures x !in Join(parts, sep)
    decreases |parts|
  {
    if |parts| >= 2 {
      JoinAvoids(parts[1..], sep, x);
    }
  }

  /** The pieces of every part, one part after another. */
  function SplitEach<T(==)>(parts: seq<seq<T>>, sep: T): seq<seq<T>>
  {
    if parts == [] then [] else Split(parts[0], sep) + SplitEach(parts[1..], sep)
  }

  /** Split undoes Join for every non-empty list of pieces: the join splits into
      the pieces of each part in turn. Since `JoinSplit` makes `Split` one-to-one,
      this fixes the join of any list, separators inside the parts included. */
  lemma {:induction false} SplitJoinEach<T>(parts: seq<seq<T>>, sep: T)
    requires |parts| >= 1
    ensures Split(Join(parts, sep), sep) == SplitEach(parts, sep)
    decreases |parts|
  {
    if |parts| == 1 {
      assert SplitEach(parts[1..], sep) == [];
    } else {
      SplitJoinEach(parts[1..], sep);
      SplitAtSep(parts[0], Join(parts[1..], sep), sep);
    }
  }

  /** Parts without the separator are their own pieces. */
  lemma {:induction false} SplitEachWithoutSep<T>(parts: seq<seq<T>>, sep: T)
    requires forall p | p in parts :: sep !in p
    ensures SplitEach(parts, sep) == parts
    decreases |parts|
  {
    if parts != [] {
      assert parts[0] in parts;
      SplitWithoutSep(parts[0], sep);
      forall p | p in parts[1..] ensures sep !in p {
        assert p in parts;
      }
      SplitEachWithoutSep(parts[1..], sep);
      assert [parts[0]] + parts[1..] == parts;
    }
  }
}
