/** Optional values, for Python's `None` and for lookups that may find nothing, and the
    filter that keeps the present ones. */
module Wrappers {

  datatype Option<+T> = None | Some(value: T)

  /** The values of the `Some` elements of `s`, in order. */
  function Values<T>(s: seq<Option<T>>): seq<T>
  {
    if s == [] then []
    else Values(s[..|s| - 1]) + (match s[|s| - 1] case Some(v) => [v] case None => [])
  }

  lemma {:induction false} ValuesAppend<T>(a: seq<Option<T>>, b: seq<Option<T>>)
    ensures Values(a + b) == Values(a) + Values(b)
    decreases |b|
  {
    if b == [] {
      assert a + b == a;
    } else {
      assert (a + b)[..|a + b| - 1] == a + b[..|b| - 1];
      ValuesAppend(a, b[..|b| - 1]);
    }
  }

  /** `x` is kept exactly when some element of `s` is `Some(x)`. */
  lemma {:induction false} ValuesMember<T>(s: seq<Option<T>>, x: T)
    ensures x in Values(s) <==> exists i :: 0 <= i < |s| && s[i] == Some(x)
  {
    if s != [] {
      var init, last := s[..|s| - 1], s[|s| - 1];
      var tail := match last case Some(v) => [v] case None => [];
      ValuesMember(init, x);
      assert Values(s) == Values(init) + tail;
      assert x in tail <==> last == Some(x);
      if x in Values(s) {
        if x in Values(init) {
          var i :| 0 <= i < |init| && init[i] == Some(x);
          assert s[i] == Some(x);
        } else {
          assert s[|s| - 1] == Some(x);
        }
      }
      if exists i :: 0 <= i < |s| && s[i] == Some(x) {
        var i :| 0 <= i < |s| && s[i] == Some(x);
        if i < |init| {
          assert init[i] == Some(x);
        }
      }
    }
  }

  /** The value of a `Some` at position `i` sits right after the values before it. */
  lemma ValuesSplitAt<T>(s: seq<Option<T>>, i: nat)
    requires i < |s| && s[i].Some?
    ensures Values(s) == Values(s[..i]) + [s[i].value] + Values(s[i + 1..])
  {
    assert s == (s[..i] + [s[i]]) + s[i + 1..];
    ValuesAppend(s[..i] + [s[i]], s[i + 1..]);
    assert (s[..i] + [s[i]])[..i] == s[..i];
  }

  /** Filtering keeps order: the value of an earlier `Some` comes before that of a later one. */
  lemma ValuesKeepOrder<T>(s: seq<Option<T>>, i: nat, j: nat)
    requires i < j < |s| && s[i].Some? && s[j].Some?
    ensures exists p, q :: 0 <= p < q < |Values(s)| && Values(s)[p] == s[i].value && Values(s)[q] == s[j].value
  {
    ValuesSplitAt(s, i);
    ValuesSplitAt(s, j);
    var p, q := |Values(s[..i])|, |Values(s[..j])|;
    assert Values(s)[p] == s[i].value;
    assert Values(s)[q] == s[j].value;
    assert p < q by {
      var prefix := s[..j];
      assert prefix[..i] == s[..i] && prefix[i] == s[i];
      ValuesSplitAt(prefix, i);
    }
  }
}
