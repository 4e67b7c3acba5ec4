/**
 * Names read as segments between separators: what `base`, `base` + separator + anything
 * means for capability patterns (separator '.') and workspace paths (separator '/').
 */
module Segments {
  import opened Common

  function Split(s: string, sep: char): (r: seq<string>)
    ensures r != []
  {
    if s == [] then [[]]
    else
      var rest := Split(s[1..], sep);
      if s[0] == sep then [[]] + rest else [[s[0]] + rest[0]] + rest[1..]
  }

  function Join(parts: seq<string>, sep: char): string
    requires parts != []
  {
    if |parts| == 1 then parts[0] else parts[0] + [sep] + Join(parts[1..], sep)
  }

  lemma {:induction false} JoinSplit(s: string, sep: char)
    ensures Join(Split(s, sep), sep) == s
  {
    if s != [] {
      JoinSplit(s[1..], sep);
      var rest := Split(s[1..], sep);
      var parts := Split(s, sep);
      assert parts[1..] == if s[0] == sep then rest else rest[1..];
    }
  }

  lemma {:induction false} SplitAppend(a: string, b: string, sep: char)
    ensures Split(a + [sep] + b, sep) == Split(a, sep) + Split(b, sep)
  {
    var whole := a + [sep] + b;
    if a == [] {
      assert whole[1..] == b;
    } else {
      assert whole[1..] == a[1..] + [sep] + b;
      SplitAppend(a[1..], b, sep);
    }
  }

  lemma {:induction false} JoinAppend(xs: seq<string>, ys: seq<string>, sep: char)
    requires xs != [] && ys != []
    ensures Join(xs + ys, sep) == Join(xs, sep) + [sep] + Join(ys, sep)
  {
    if |xs| == 1 {
      assert (xs + ys)[1..] == ys;
    } else {
      assert (xs + ys)[1..] == xs[1..] + ys;
      JoinAppend(xs[1..], ys, sep);
    }
  }

  lemma BelowIsLonger(base: string, more: string, sep: char)
    ensures Split(base, sep) <= Split(base + [sep] + more, sep)
  {
    SplitAppend(base, more, sep);
  }

  lemma LongerIsBelow(head: seq<string>, tail: seq<string>, sep: char)
    requires head != []
    ensures Under(Join(head, sep), Join(head + tail, sep), sep)
  {
    if tail == [] {
      assert head + tail == head;
    } else {
      JoinAppend(head, tail, sep);
    }
  }

  /** Being under a base is a prefix relation on whole segments, never on parts of one. */
  lemma UnderIsSegmentPrefix(base: string, name: string, sep: char)
    ensures Under(base, name, sep) <==> Split(base, sep) <= Split(name, sep)
  {
    if base + [sep] <= name {
      assert name == base + [sep] + name[|base| + 1..];
      BelowIsLonger(base, name[|base| + 1..], sep);
    }
    if Split(base, sep) <= Split(name, sep) {
      var tail := Split(name, sep)[|Split(base, sep)|..];
      assert Split(name, sep) == Split(base, sep) + tail;
      LongerIsBelow(Split(base, sep), tail, sep);
      JoinSplit(base, sep);
      JoinSplit(name, sep);
    }
  }

  /** Of two bases of one name the shorter is above the longer, so bases of equal length are equal. */
  lemma UnderIsChain(a: string, b: string, name: string, sep: char)
    requires Under(a, name, sep) && Under(b, name, sep) && |a| <= |b|
    ensures Under(a, b, sep)
    ensures |a| == |b| ==> a == b
  {
    assert a == name[..|a|];
    assert b == name[..|b|];
    if a != b {
      assert |a| < |b|;
      assert a + [sep] == name[..|a| + 1];
    }
  }

  lemma CoversIsSegmentPrefix(prefix: string, path: string)
    ensures Covers(prefix, path) <==> Split(prefix, '/') <= Split(path, '/')
  {
    UnderIsSegmentPrefix(prefix, path, '/');
  }
}
