/** Splitting at a separator and joining again, as `str::split` and `[T]::split` do. */
module Sequences {
  function Split<T(==)>(s: seq<T>, sep: T): (parts: seq<seq<T>>)
    ensures |parts| > 0
  {
    if s == [] then
      [[]]
    else
      var rest := Split(s[1..], sep);
      if s[0] == sep then [[]] + rest else [[s[0]] + rest[0]] + rest[1..]
  }

  function Join<T>(parts: seq<seq<T>>, sep: T): seq<T>
    requires |parts| > 0
  {
    if |parts| == 1 then parts[0] else parts[0] + [sep] + Join(parts[1..], sep)
  }

  lemma {:induction false} JoinSplit<T>(s: seq<T>, sep: T)
    ensures Join(Split(s, sep), sep) == s
  {
    if s != [] {
      JoinSplit(s[1..], sep);
      var rest, parts := Split(s[1..], sep), Split(s, sep);
      if s[0] == sep {
        assert parts[1..] == rest;
        assert s == [] + [sep] + s[1..];
      } else {
        assert parts[1..] == rest[1..];
        assert s == [s[0]] + s[1..];
      }
    }
  }

  /** No part holds a separator, and there are two or more exactly if the text does. */
  lemma {:induction false} SplitSeparates<T>(s: seq<T>, sep: T)
    ensures |Split(s, sep)| >= 2 <==> sep in s
    ensures forall i :: 0 <= i < |Split(s, sep)| ==> sep !in Split(s, sep)[i]
  {
    if s != [] {
      SplitSeparates(s[1..], sep);
      assert sep in s <==> s[0] == sep || sep in s[1..];
    }
  }

  /** A joined text holds what its parts hold, and separators. */
  lemma {:induction false} JoinHolds<T>(parts: seq<seq<T>>, sep: T, x: T)
    requires |parts| > 0 && x != sep
    ensures x in Join(parts, sep) <==> exists i :: 0 <= i < |parts| && x in parts[i]
  {
    if |parts| > 1 {
      var rest := parts[1..];
      JoinHolds(rest, sep, x);
      assert forall i :: 0 <= i < |rest| ==> parts[i + 1] == rest[i];
      assert x in Join(parts, sep) <==> x in parts[0] || x in Join(rest, sep);
    }
  }

  /** A part without separators, followed by a separator, is split off whole. */
  lemma {:induction false} SplitFirst<T>(first: seq<T>, rest: seq<T>, sep: T)
    requires sep !in first
    ensures Split(first, sep) == [first]
    ensures Split(first + [sep] + rest, sep) == [first] + Split(rest, sep)
  {
    var s := first + [sep] + rest;
    if first == [] {
      assert s[1..] == rest;
    } else {
      SplitFirst(first[1..], rest, sep);
      assert s[1..] == first[1..] + [sep] + rest;
      assert [first[0]] + first[1..] == first;
      assert Split(s[1..], sep)[1..] == Split(rest, sep);
    }
  }

  lemma {:induction false} SplitJoin<T>(parts: seq<seq<T>>, sep: T)
    requires |parts| > 0 && forall i :: 0 <= i < |parts| ==> sep !in parts[i]
    ensures Split(Join(parts, sep), sep) == parts
  {
    if |parts| == 1 {
      SplitFirst(parts[0], [], sep);
    } else {
      SplitJoin(parts[1..], sep);
      SplitFirst(parts[0], Join(parts[1..], sep), sep);
      assert parts == [parts[0]] + parts[1..];
    }
  }
}
