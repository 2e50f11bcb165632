/**
  Owner lists as the allocator stores them: service keys joined with ";" in one string
  (pkg/controllers/ipam/ipam.go, pkg/controllers/ipam/controller.go, pkg/util/util.go).
 */
module Owners {
  import opened Basics

  /** `strings.Split` on a one-character separator; never empty. */
  function Split(s: string, sep: char): (r: seq<string>)
    ensures |r| >= 1
  {
    if s == "" then [""]
    else
      var rest := Split(s[1..], sep);
      if s[0] == sep then [""] + rest else [[s[0]] + rest[0]] + rest[1..]
  }

  /** `strings.Join`. */
  function Join(l: seq<string>, sep: char): string {
    if l == [] then "" else if |l| == 1 then l[0] else l[0] + [sep] + Join(l[1..], sep)
  }

  predicate Free(l: seq<string>, sep: char) {
    forall i :: 0 <= i < |l| ==> sep !in l[i]
  }

  lemma {:induction false} SplitWord(w: string, sep: char)
    requires sep !in w
    ensures Split(w, sep) == [w]
  {
    if w != "" {
      SplitWord(w[1..], sep);
      assert [w[0]] + w[1..] == w;
    }
  }

  lemma {:induction false} SplitAt(w: string, s: string, sep: char)
    requires sep !in w
    ensures Split(w + [sep] + s, sep) == [w] + Split(s, sep)
  {
    var whole := w + [sep] + s;
    if w == "" {
      assert whole[1..] == s;
    } else {
      assert whole[1..] == w[1..] + [sep] + s;
      SplitAt(w[1..], s, sep);
      assert [w[0]] + w[1..] == w;
    }
  }

  /** Split undoes join on a non-empty list of words without the separator. */
  lemma {:induction false} SplitOfJoin(l: seq<string>, sep: char)
    requires l != [] && Free(l, sep)
    ensures Split(Join(l, sep), sep) == l
  {
    if |l| == 1 {
      SplitWord(l[0], sep);
    } else {
      SplitOfJoin(l[1..], sep);
      SplitAt(l[0], Join(l[1..], sep), sep);
    }
  }

  lemma JoinCons(c: string, l: seq<string>, sep: char)
    requires l != []
    ensures Join([c + l[0]] + l[1..], sep) == c + Join(l, sep)
    ensures Join([""] + l, sep) == [sep] + Join(l, sep)
  {
    assert ([""] + l)[1..] == l && ([c + l[0]] + l[1..])[1..] == l[1..];
    if |l| > 1 {
      assert (c + l[0]) + [sep] + Join(l[1..], sep) == c + (l[0] + [sep] + Join(l[1..], sep));
    }
  }

  /** Join undoes split on every string, and the parts hold no separator. */
  lemma {:induction false} JoinOfSplit(s: string, sep: char)
    ensures Join(Split(s, sep), sep) == s
    ensures Free(Split(s, sep), sep)
  {
    if s != "" {
      JoinOfSplit(s[1..], sep);
      JoinCons([s[0]], Split(s[1..], sep), sep);
      assert s == [s[0]] + s[1..];
    }
  }

  /** Appending a key with `fmt.Sprintf("%s;%s", …)` appends it to the list. */
  lemma {:induction false} SplitAppend(s: string, w: string, sep: char)
    requires sep !in w
    ensures Split(s + [sep] + w, sep) == Split(s, sep) + [w]
  {
    var whole := s + [sep] + w;
    if s == "" {
      SplitWord(w, sep);
      assert whole[1..] == w;
    } else {
      assert whole[1..] == s[1..] + [sep] + w;
      SplitAppend(s[1..], w, sep);
    }
  }

  // ---------------------------------------------------------------- removal

  function Without(l: seq<string>, w: string): (r: seq<string>)
    ensures |r| <= |l|
    ensures w !in r
    ensures forall x :: x in r <==> x in l && x != w
    ensures r == [] <==> forall x :: x in l ==> x == w
  {
    if l == [] then []
    else if l[0] == w then Without(l[1..], w)
    else
      assert l[0] in l;
      [l[0]] + Without(l[1..], w)
  }

  lemma {:induction false} WithoutAppend(l: seq<string>, x: string, w: string)
    ensures Without(l + [x], w) == Without(l, w) + (if x == w then [] else [x])
  {
    if l == [] {
      assert l + [x] == [x];
    } else {
      assert (l + [x])[1..] == l[1..] + [x];
      WithoutAppend(l[1..], x, w);
    }
  }

  /** `util.RemoveString`. */
  method RemoveString(slice: seq<string>, s: string) returns (result: seq<string>)
    ensures result == Without(slice, s)
  {
    result := [];
    for i := 0 to |slice|
      invariant result == Without(slice[..i], s)
    {
      assert slice[..i + 1] == slice[..i] + [slice[i]];
      WithoutAppend(slice[..i], slice[i], s);
      if slice[i] != s { result := result + [slice[i]]; }
    }
    assert slice[..|slice|] == slice;
  }

  lemma {:induction false} WithoutNoDuplicates(l: seq<string>, w: string)
    requires NoDuplicates(l)
    ensures NoDuplicates(Without(l, w))
    ensures |Without(l, w)| == |l| - (if w in l then 1 else 0)
  {
    if l != [] {
      WithoutNoDuplicates(l[1..], w);
      var rest := Without(l[1..], w);
      assert l == [l[0]] + l[1..] && l[0] !in l[1..];
      forall i, j | 0 <= i < j < |[l[0]] + rest| ensures ([l[0]] + rest)[i] != ([l[0]] + rest)[j] {
        if i == 0 { assert rest[j - 1] in rest; }
      }
    }
  }
}
