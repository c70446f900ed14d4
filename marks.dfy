/** The pure specification of tonal-mark re-attachment.

    A word reaches `parse_sign` as a list of strings, one per character. A
    combining tone or under-dot mark that stands as an element of its own is
    glued onto the element before it. `Group` is the reference meaning of that
    step: every element takes with it the run of marks that follows it.
    `ReattachMarks` is what the loop of `parse_sign` produces on any list,
    including the case where the list starts with a mark and Python's index
    -1 sends that mark to the far end of the list. */
module Marks {

  /** One list element: a Python `str`, here a sequence of code points. */
  type Element = string

  /** The code points of the marks, in the order written in the source:
      combining grave, combining acute, combining acute tone mark, combining
      dot below and combining vertical line below. */
  const TonalMarks: set<char> := {'\U{0300}', '\U{0301}', '\U{0341}', '\U{0323}', '\U{0329}'}

  /** An element is a mark only when it equals one of the one-character
      strings of the marks; an element that already carries a mark is not one. */
  predicate IsMark(e: Element)
  {
    |e| == 1 && e[0] in TonalMarks
  }

  /** The mark list as the source writes it: five one-character strings. */
  const MarkStrings: seq<string> := ["\U{0300}", "\U{0301}", "\U{0341}", "\U{0323}", "\U{0329}"]

  /** `IsMark` is exactly Python's `in` test against the list of mark
      strings, which compares whole strings. */
  lemma MarkListMembership(e: Element)
    ensures IsMark(e) <==> e in MarkStrings
  {
    if IsMark(e) {
      assert e == [e[0]];
    }
  }

  /** Every character of `w` is, on its own, a mark. */
  predicate OnlyMarks(w: string)
  {
    forall i :: 0 <= i < |w| ==> IsMark([w[i]])
  }

  /** The string obtained by joining the elements (`"".join(name)`). */
  function Concat(s: seq<Element>): string
  {
    if s == [] then [] else s[0] + Concat(s[1..])
  }

  /** The split that `list(name)` performs: one element per character. */
  function Chars(w: string): (r: seq<Element>)
    ensures |r| == |w|
  {
    seq(|w|, i requires 0 <= i < |w| => [w[i]])
  }

  /** The number of marks at the front of `s`. */
  function LeadingMarks(s: seq<Element>): (k: nat)
    ensures k <= |s|
  {
    if s != [] && IsMark(s[0]) then 1 + LeadingMarks(s[1..]) else 0
  }

  /** The number of elements of `s` that are marks. */
  function CountMarks(s: seq<Element>): nat
  {
    if s == [] then 0 else (if IsMark(s[0]) then 1 else 0) + CountMarks(s[1..])
  }

  /** The elements of `s` that are not marks, in their order. */
  function NonMarks(s: seq<Element>): (r: seq<Element>)
    ensures |r| == |s| - CountMarks(s)
  {
    if s == [] then []
    else (if IsMark(s[0]) then [] else [s[0]]) + NonMarks(s[1..])
  }

  /** Reference grouping: each element, followed by the maximal run of marks
      after it, becomes one element. */
  function Group(s: seq<Element>): (g: seq<Element>)
    ensures |g| <= |s|
    ensures g == [] <==> s == []
    decreases |s|
  {
    if s == [] then []
    else
      var r := LeadingMarks(s[1..]);
      [s[0] + Concat(s[1..1 + r])] + Group(s[1 + r..])
  }

  /** The list after `j` passes of the loop at index 0 that found a mark:
      each pass appended the front mark to the last element and deleted it. */
  function Wrapped(s: seq<Element>, j: nat): (w: seq<Element>)
    requires j < |s|
    ensures |w| == |s| - j
  {
    s[j..|s| - 1] + [s[|s| - 1] + Concat(s[..j])]
  }

  /** How many times the loop wraps around before it meets a non-mark at
      index 0: once per leading mark, but never past the last element. */
  function WrapCount(s: seq<Element>): (k: nat)
    requires s != []
    ensures k < |s| && k <= LeadingMarks(s)
  {
    if LeadingMarks(s) < |s| then LeadingMarks(s) else |s| - 1
  }

  /** The wrap-around passes leave a single element that is itself a mark
      (a lone mark, say): the next pass appends it to itself and deletes it. */
  predicate Vanishes(s: seq<Element>): (b: bool)
    requires s != []
    ensures b ==> |s| - 1 <= LeadingMarks(s)
  {
    var t := Wrapped(s, WrapCount(s));
    |t| == 1 && IsMark(t[0])
  }

  /** The list that `parse_sign` returns for `s`. */
  function ReattachMarks(s: seq<Element>): (r: seq<Element>)
    ensures |r| <= |s|
  {
    if s == [] || Vanishes(s) then []
    else Group(Wrapped(s, WrapCount(s)))
  }


  /** `out` is `heads` with marks attached: element for element, each output
      element starts with the corresponding head and continues with mark
      characters only. */
  predicate Shaped(heads: seq<Element>, out: seq<Element>)
  {
    |heads| == |out| &&
    forall j :: 0 <= j < |out| ==> heads[j] <= out[j] && OnlyMarks(out[j][|heads[j]|..])
  }

  // ---------------------------------------------------------------------
  // Sequence facts, stated generically so that they are proved once

  lemma Assoc<T>(a: seq<T>, b: seq<T>, c: seq<T>)
    ensures a + (b + c) == (a + b) + c
  {
  }

  lemma ConsSnoc<T>(h: T, g: seq<T>, x: T)
    ensures [h] + (g + [x]) == ([h] + g) + [x]
  {
  }

  lemma SnocSlices<T>(p: seq<T>, x: T, i: nat, j: nat)
    requires i <= j <= |p|
    ensures (p + [x])[i..] == p[i..] + [x]
    ensures (p + [x])[i..j] == p[i..j]
  {
  }

  lemma SplitSlices<T>(s: seq<T>, i: nat, j: nat)
    requires i <= j <= |s|
    ensures s[i..] == s[i..j] + s[j..]
  {
  }

  lemma SplitLast<T>(s: seq<T>, i: nat)
    requires i < |s|
    ensures s[i..] == s[i..|s| - 1] + [s[|s| - 1]]
  {
  }

  lemma SplitHead<T>(s: seq<T>)
    requires s != []
    ensures s == [s[0]] + s[1..]
  {
  }

  lemma PrefixSnoc<T>(s: seq<T>, j: nat)
    requires j < |s|
    ensures s[..j + 1] == s[..j] + [s[j]]
  {
  }

  /** Putting an element in front of a non-empty list commutes with
      appending `x` to the list's last element. */
  lemma ExtendLastCons(h: Element, g: seq<Element>, x: Element)
    requires g != []
    ensures var hg := [h] + g;
      hg[..|hg| - 1] + [hg[|hg| - 1] + x] == [h] + (g[..|g| - 1] + [g[|g| - 1] + x])
  {
    var hg := [h] + g;
    assert hg[..|hg| - 1] == [h] + g[..|g| - 1];
  }

  // ---------------------------------------------------------------------
  // Joining, counting and the leading run of marks

  lemma MarkIsOneChar(e: Element)
    requires IsMark(e)
    ensures |e| == 1
  {
  }

  lemma {:induction false} ConcatAppend(a: seq<Element>, b: seq<Element>)
    ensures Concat(a + b) == Concat(a) + Concat(b)
  {
    if a == [] {
      assert a + b == b;
    } else {
      assert (a + b)[1..] == a[1..] + b by { SnocFree(a, b); }
      ConcatAppend(a[1..], b);
      Assoc(a[0], Concat(a[1..]), Concat(b));
    }
  }

  lemma SnocFree<T>(a: seq<T>, b: seq<T>)
    requires a != []
    ensures (a + b)[0] == a[0] && (a + b)[1..] == a[1..] + b
  {
  }

  lemma ConcatOne(x: Element)
    ensures Concat([x]) == x
  {
    assert [x][1..] == [];
    assert x + [] == x;
  }

  /** Joining marks gives one mark character per element. */
  lemma {:induction false} ConcatOfMarks(m: seq<Element>)
    requires forall i :: 0 <= i < |m| ==> IsMark(m[i])
    ensures |Concat(m)| == |m|
    ensures OnlyMarks(Concat(m))
  {
    if m != [] {
      MarkIsOneChar(m[0]);
      ConcatOfMarks(m[1..]);
      var w := Concat(m);
      var rest := Concat(m[1..]);
      assert w == m[0] + rest;
      forall i | 0 <= i < |w| ensures IsMark([w[i]]) {
        if i == 0 {
          assert [w[0]] == m[0];
        } else {
          assert w[i] == rest[i - 1];
        }
      }
    }
  }

  lemma {:induction false} NonMarksAppend(a: seq<Element>, b: seq<Element>)
    ensures NonMarks(a + b) == NonMarks(a) + NonMarks(b)
  {
    if a == [] {
      assert a + b == b;
    } else {
      SnocFree(a, b);
      NonMarksAppend(a[1..], b);
      Assoc(if IsMark(a[0]) then [] else [a[0]], NonMarks(a[1..]), NonMarks(b));
    }
  }

  lemma {:induction false} NonMarksOfMarks(m: seq<Element>)
    requires forall i :: 0 <= i < |m| ==> IsMark(m[i])
    ensures NonMarks(m) == []
  {
    if m != [] {
      NonMarksOfMarks(m[1..]);
    }
  }

  /** `NonMarks` keeps only non-mark elements of its input. */
  lemma {:induction false} NonMarksFrom(s: seq<Element>)
    ensures forall e :: e in NonMarks(s) ==> e in s && !IsMark(e)
  {
    if s != [] {
      NonMarksFrom(s[1..]);
    }
  }

  /** `LeadingMarks` counts the longest run of marks at the front: every
      element before it is a mark, and the element at it is not. */
  lemma {:induction false} LeadingMarksRun(s: seq<Element>)
    ensures forall i :: 0 <= i < LeadingMarks(s) ==> IsMark(s[i])
    ensures LeadingMarks(s) < |s| ==> !IsMark(s[LeadingMarks(s)])
  {
    if s != [] && IsMark(s[0]) {
      LeadingMarksRun(s[1..]);
      forall i | 0 <= i < LeadingMarks(s) ensures IsMark(s[i]) {
        if i > 0 {
          assert s[i] == s[1..][i - 1];
        }
      }
    }
  }

  /** `LeadingMarks` is determined by where the first non-mark stands. */
  lemma {:induction false} LeadingMarksIs(s: seq<Element>, k: nat)
    requires k <= |s|
    requires forall i :: 0 <= i < k ==> IsMark(s[i])
    requires k < |s| ==> !IsMark(s[k])
    ensures LeadingMarks(s) == k
  {
    if k > 0 {
      assert IsMark(s[0]);
      assert forall i :: 0 <= i < k - 1 ==> IsMark(s[1..][i]);
      LeadingMarksIs(s[1..], k - 1);
    }
  }

  /** The leading run of marks of `a + b` ends inside `a` unless `a` is all
      marks, in which case it continues into `b`. */
  lemma {:induction false} LeadingMarksAppend(a: seq<Element>, b: seq<Element>)
    ensures LeadingMarks(a + b) ==
      if LeadingMarks(a) < |a| then LeadingMarks(a) else |a| + LeadingMarks(b)
  {
    if a == [] {
      assert a + b == b;
    } else {
      SnocFree(a, b);
      if IsMark(a[0]) {
        LeadingMarksAppend(a[1..], b);
      }
    }
  }

  lemma LeadingMarksOne(x: Element)
    ensures LeadingMarks([x]) == if IsMark(x) then 1 else 0
  {
    assert [x][1..] == [];
  }

  /** Splitting a character string into one-element strings and joining them
      again gives the string back. */
  lemma {:induction false} ConcatChars(w: string)
    ensures |Chars(w)| == |w|
    ensures Concat(Chars(w)) == w
  {
    if w != [] {
      assert Chars(w)[1..] == Chars(w[1..]);
      ConcatChars(w[1..]);
      assert w == [w[0]] + w[1..];
    }
  }

  // ---------------------------------------------------------------------
  // Properties of the grouping

  /** The first group of `s` is `s[0]` with the marks that follow it. */
  lemma GroupCons(s: seq<Element>, r: nat)
    requires s != [] && r == LeadingMarks(s[1..])
    ensures 1 + r <= |s|
    ensures Group(s) == [s[0] + Concat(s[1..1 + r])] + Group(s[1 + r..])
  {
    assert r <= |s[1..]|;
  }

  /** A one-element list is its own grouping. */
  lemma GroupSingle(x: Element)
    ensures Group([x]) == [x]
  {
    assert [x][1..] == [];
    GroupCons([x], 0);
    assert [x][1..1] == [] && [x][1..] == [];
    assert x + Concat([]) == x;
  }

  /** Appending one element to a list either extends its last group, when the
      element is a mark and the list is not empty, or opens a new group. This
      is the step the loop of `parse_sign` takes at every index past the
      first. */
  lemma {:induction false} GroupSnoc(p: seq<Element>, x: Element)
    ensures Group(p + [x]) ==
      if IsMark(x) && p != [] then Group(p)[..|Group(p)| - 1] + [Group(p)[|Group(p)| - 1] + x]
      else Group(p) + [x]
    decreases |p|
  {
    if p == [] {
      assert p + [x] == [x];
      GroupSingle(x);
    } else {
      var r := LeadingMarks(p[1..]);
      if r < |p| - 1 {
        GroupSnocInner(p, x, r);
      } else if IsMark(x) {
        GroupSnocLastMark(p, x, r);
      } else {
        GroupSnocLastOther(p, x, r);
      }
    }
  }

  /** `GroupSnoc` when the first group of `p` stops before its end. */
  lemma {:induction false} GroupSnocInner(p: seq<Element>, x: Element, r: nat)
    requires p != [] && r == LeadingMarks(p[1..]) && r < |p| - 1
    ensures Group(p + [x]) ==
      if IsMark(x) then Group(p)[..|Group(p)| - 1] + [Group(p)[|Group(p)| - 1] + x]
      else Group(p) + [x]
    decreases |p|, 0
  {
    var q := p + [x];
    var h := p[0] + Concat(p[1..1 + r]);
    var tail := p[1 + r..];
    GroupSnocFront(p, x, r);
    assert Group(p) == [h] + Group(tail) by {
      GroupCons(p, r);
    }
    GroupSnoc(tail, x);
    if IsMark(x) {
      ExtendLastCons(h, Group(tail), x);
    } else {
      ConsSnoc(h, Group(tail), x);
    }
  }

  /** Appending after a first group that stops early leaves that group as it
      is. */
  lemma GroupSnocFront(p: seq<Element>, x: Element, r: nat)
    requires p != [] && r == LeadingMarks(p[1..]) && r < |p| - 1
    ensures Group(p + [x]) == [p[0] + Concat(p[1..1 + r])] + Group(p[1 + r..] + [x])
  {
    var q := p + [x];
    SnocSlices(p, x, 1, 1);
    LeadingMarksAppend(p[1..], [x]);
    SnocSlices(p, x, 1, 1 + r);
    SnocSlices(p, x, 1 + r, 1 + r);
    GroupCons(q, r);
  }

  /** A list whose elements after the first are all marks is one group. */
  lemma GroupWhole(p: seq<Element>)
    requires p != [] && LeadingMarks(p[1..]) == |p| - 1
    ensures Group(p) == [p[0] + Concat(p[1..])]
  {
    GroupCons(p, |p| - 1);
    assert p[1..|p|] == p[1..];
    assert p[|p|..] == [];
  }

  /** `GroupSnoc` when `p` is a single group and `x` a mark. */
  lemma GroupSnocLastMark(p: seq<Element>, x: Element, r: nat)
    requires p != [] && r == LeadingMarks(p[1..]) && r == |p| - 1 && IsMark(x)
    ensures Group(p + [x]) == Group(p)[..|Group(p)| - 1] + [Group(p)[|Group(p)| - 1] + x]
  {
    var q := p + [x];
    SnocFree(p, [x]);
    LeadingMarksAppend(p[1..], [x]);
    LeadingMarksOne(x);
    GroupWhole(p);
    GroupWhole(q);
    ConcatAppend(p[1..], [x]);
    ConcatOne(x);
    Assoc(p[0], Concat(p[1..]), x);
  }

  /** `GroupSnoc` when `p` is a single group and `x` not a mark. */
  lemma GroupSnocLastOther(p: seq<Element>, x: Element, r: nat)
    requires p != [] && r == LeadingMarks(p[1..]) && r == |p| - 1 && !IsMark(x)
    ensures Group(p + [x]) == Group(p) + [x]
  {
    var q := p + [x];
    SnocFree(p, [x]);
    LeadingMarksAppend(p[1..], [x]);
    LeadingMarksOne(x);
    GroupWhole(p);
    GroupCons(q, r);
    SnocSlices(p, x, 1, |p|);
    SnocSlices(p, x, |p|, |p|);
    assert p[1..|p|] == p[1..];
    assert p[|p|..] == [];
    GroupSingle(x);
  }

  /** Grouping never changes the joined string. */
  lemma {:induction false} GroupConcat(s: seq<Element>)
    ensures Concat(Group(s)) == Concat(s)
    decreases |s|
  {
    if s != [] {
      var r := LeadingMarks(s[1..]);
      var m := s[1..1 + r];
      var t := s[1 + r..];
      var h := s[0] + Concat(m);
      GroupCons(s, r);
      GroupConcat(t);
      assert Concat(Group(s)) == h + Concat(t) by {
        ConcatAppend([h], Group(t));
        ConcatOne(h);
      }
      assert Concat(s[1..]) == Concat(m) + Concat(t) by {
        SplitSlices(s, 1, 1 + r);
        ConcatAppend(m, t);
      }
      Assoc(s[0], Concat(m), Concat(t));
    }
  }

  /** The first group of `s` splits it into `s[0]`, a run of marks, and a
      rest that does not start with a mark. */
  lemma RunParts(s: seq<Element>, m: seq<Element>, t: seq<Element>)
    requires s != []
    requires m == s[1..1 + LeadingMarks(s[1..])] && t == s[1 + LeadingMarks(s[1..])..]
    ensures forall i :: 0 <= i < |m| ==> IsMark(m[i])
    ensures t == [] || !IsMark(t[0])
  {
    var r := LeadingMarks(s[1..]);
    LeadingMarksRun(s[1..]);
    forall i | 0 <= i < |m| ensures IsMark(m[i]) {
      assert m[i] == s[1..][i];
    }
    if t != [] {
      assert t[0] == s[1..][r];
    }
  }

  /** One group in front: a head followed by mark characters. */
  lemma ShapedCons(b: Element, w: string, heads: seq<Element>, out: seq<Element>)
    requires OnlyMarks(w) && Shaped(heads, out)
    ensures Shaped([b] + heads, [b + w] + out)
  {
    var hs := [b] + heads;
    var os := [b + w] + out;
    forall j | 0 <= j < |os| ensures hs[j] <= os[j] && OnlyMarks(os[j][|hs[j]|..]) {
      if j == 0 {
        assert (b + w)[|b|..] == w;
      } else {
        assert hs[j] == heads[j - 1] && os[j] == out[j - 1];
      }
    }
  }

  /** When the list does not start with a mark, the groups are exactly its
      non-mark elements, in their order, each followed by nothing but mark
      characters; so the list loses one element per mark. */
  lemma {:induction false} GroupShape(s: seq<Element>)
    requires s == [] || !IsMark(s[0])
    ensures Shaped(NonMarks(s), Group(s))
    ensures |Group(s)| == |s| - CountMarks(s)
    decreases |s|
  {
    if s != [] {
      var r := LeadingMarks(s[1..]);
      var t := s[1 + r..];
      RunParts(s, s[1..1 + r], t);
      GroupShape(t);
      ShapeStep(s, r);
    }
  }

  /** The first group keeps the shape that the rest of the groups have. */
  lemma ShapeStep(s: seq<Element>, r: nat)
    requires s != [] && !IsMark(s[0]) && r == LeadingMarks(s[1..])
    requires Shaped(NonMarks(s[1 + r..]), Group(s[1 + r..]))
    ensures Shaped(NonMarks(s), Group(s))
  {
    var m := s[1..1 + r];
    var t := s[1 + r..];
    GroupCons(s, r);
    RunParts(s, m, t);
    ConcatOfMarks(m);
    assert NonMarks(s[1..]) == NonMarks(t) by {
      SplitSlices(s, 1, 1 + r);
      NonMarksOfMarks(m);
      NonMarksAppend(m, t);
    }
    ShapedCons(s[0], Concat(m), NonMarks(t), Group(t));
  }

  /** A list of non-empty elements that does not start with a mark groups
      into elements none of which is a bare mark. */
  lemma NoBareMark(s: seq<Element>)
    requires s == [] || !IsMark(s[0])
    requires forall i :: 0 <= i < |s| ==> s[i] != []
    ensures forall e :: e in Group(s) ==> !IsMark(e)
  {
    GroupShape(s);
    NonMarksFrom(s);
    var heads := NonMarks(s);
    var out := Group(s);
    forall j | 0 <= j < |out| ensures !IsMark(out[j]) {
      assert heads[j] in heads;
    }
  }

  /** A list free of marks is its own grouping. */
  lemma {:induction false} GroupNoMarks(s: seq<Element>)
    requires forall e :: e in s ==> !IsMark(e)
    ensures Group(s) == s
    decreases |s|
  {
    if s != [] {
      assert s[1..] != [] ==> s[1..][0] in s;
      LeadingMarksOne(s[0]);
      LeadingMarksIs(s[1..], 0);
      GroupCons(s, 0);
      assert s[1..1] == [];
      assert s[0] + Concat([]) == s[0];
      assert forall e :: e in s[1..] ==> e in s;
      GroupNoMarks(s[1..]);
      SplitHead(s);
    }
  }

  // ---------------------------------------------------------------------
  // Properties of parse_sign

  /** Without a leading mark the loop never wraps: the result is the grouping. */
  lemma ReattachIsGroup(s: seq<Element>)
    requires s == [] || !IsMark(s[0])
    ensures ReattachMarks(s) == Group(s)
  {
    if s != [] {
      LeadingMarksIs(s, 0);
      assert WrapCount(s) == 0;
      assert s[..0] == [];
      assert s[|s| - 1] + Concat([]) == s[|s| - 1];
      SplitLast(s, 0);
      assert Wrapped(s, 0) == s;
      assert !Vanishes(s);
    }
  }

  /** Without a leading mark, joining the result gives the joined input. */
  lemma ReattachPreservesConcat(s: seq<Element>)
    requires s == [] || !IsMark(s[0])
    ensures Concat(ReattachMarks(s)) == Concat(s)
  {
    ReattachIsGroup(s);
    GroupConcat(s);
  }

  /** Without a leading mark, the result is one element shorter per mark. */
  lemma ReattachLength(s: seq<Element>)
    requires s == [] || !IsMark(s[0])
    ensures |ReattachMarks(s)| == |s| - CountMarks(s)
  {
    ReattachIsGroup(s);
    GroupShape(s);
  }

  /** Without a leading mark, the non-mark elements survive in their order,
      each at the front of its output element with only marks after it. */
  lemma ReattachKeepsOrder(s: seq<Element>)
    requires s == [] || !IsMark(s[0])
    ensures Shaped(NonMarks(s), ReattachMarks(s))
  {
    ReattachIsGroup(s);
    GroupShape(s);
  }

  /** A list without marks comes back unchanged. */
  lemma ReattachNoMarks(s: seq<Element>)
    requires forall e :: e in s ==> !IsMark(e)
    ensures ReattachMarks(s) == s
  {
    if s != [] {
      assert s[0] in s;
    }
    ReattachIsGroup(s);
    GroupNoMarks(s);
  }

  /** The list that the wrap-around passes leave behind does not start with a
      mark, and its elements are non-empty when the input's are. */
  lemma WrappedHead(s: seq<Element>)
    requires s != [] && !(|s| == 1 && IsMark(s[0]))
    requires forall i :: 0 <= i < |s| ==> s[i] != []
    ensures !IsMark(Wrapped(s, WrapCount(s))[0])
    ensures forall i :: 0 <= i < |Wrapped(s, WrapCount(s))| ==> Wrapped(s, WrapCount(s))[i] != []
  {
    var j := WrapCount(s);
    var t := Wrapped(s, j);
    var m := s[..j];
    LeadingMarksRun(s);
    assert forall i :: 0 <= i < |m| ==> IsMark(m[i]);
    ConcatOfMarks(m);
    forall i | 0 <= i < |t| ensures t[i] != [] {
      if i < |t| - 1 {
        assert t[i] == s[j + i];
      }
    }
    if j < |s| - 1 {
      assert t[0] == s[j];
    } else {
      assert t[0] == s[|s| - 1] + Concat(m);
      if IsMark(t[0]) {
        MarkIsOneChar(t[0]);
      }
    }
  }

  /** With no empty element, the result holds no bare mark. */
  lemma ReattachNoBareMark(s: seq<Element>)
    requires forall i :: 0 <= i < |s| ==> s[i] != []
    ensures forall e :: e in ReattachMarks(s) ==> !IsMark(e)
  {
    if s != [] && !(|s| == 1 && IsMark(s[0])) {
      WrappedHead(s);
      NoBareMark(Wrapped(s, WrapCount(s)));
    } else if s != [] {
      LoneMarkVanishes(s);
    }
  }

  /** A lone mark leaves nothing behind. */
  lemma LoneMarkVanishes(s: seq<Element>)
    requires |s| == 1 && IsMark(s[0])
    ensures ReattachMarks(s) == []
  {
    LeadingMarksIs(s, 1);
    assert s[..0] == [];
    assert Wrapped(s, 0)[0] == s[0] + [];
  }

  /** Re-attaching marks twice is the same as once, for every list of
      non-empty elements, the wrap-around case included. */
  lemma ReattachIdempotent(s: seq<Element>)
    requires forall i :: 0 <= i < |s| ==> s[i] != []
    ensures ReattachMarks(ReattachMarks(s)) == ReattachMarks(s)
  {
    ReattachNoBareMark(s);
    ReattachNoMarks(ReattachMarks(s));
  }

  /** With leading marks and something else after them, the result joins to
      the input rotated: the leading marks end up after the rest of the word. */
  lemma ReattachRotates(s: seq<Element>)
    requires LeadingMarks(s) < |s|
    requires forall i :: 0 <= i < |s| ==> s[i] != []
    ensures Concat(ReattachMarks(s)) == Concat(s[LeadingMarks(s)..]) + Concat(s[..LeadingMarks(s)])
  {
    var k := LeadingMarks(s);
    var mid := s[k..|s| - 1];
    var y := s[|s| - 1];
    var t := Wrapped(s, k);
    assert ReattachMarks(s) == Group(t) by {
      LeadingMarksRun(s);
      assert WrapCount(s) == k;
      WrappedHead(s);
    }
    GroupConcat(t);
    assert Concat(t) == Concat(mid) + (y + Concat(s[..k])) by {
      ConcatAppend(mid, [y + Concat(s[..k])]);
      ConcatOne(y + Concat(s[..k]));
    }
    assert Concat(s[k..]) == Concat(mid) + y by {
      SplitLast(s, k);
      ConcatAppend(mid, [y]);
      ConcatOne(y);
    }
    Assoc(Concat(mid), y, Concat(s[..k]));
  }

  /** A list of marks only: a single mark vanishes, and two or more fold into
      one element, the last mark followed by all the others. */
  lemma ReattachAllMarks(s: seq<Element>)
    requires LeadingMarks(s) == |s| >= 1
    ensures |s| == 1 ==> ReattachMarks(s) == []
    ensures |s| >= 2 ==> ReattachMarks(s) == [s[|s| - 1] + Concat(s[..|s| - 1])]
  {
    LeadingMarksRun(s);
    if |s| >= 2 {
      var y := s[|s| - 1] + Concat(s[..|s| - 1]);
      assert Wrapped(s, |s| - 1) == [y] by {
        assert s[|s| - 1..|s| - 1] == [];
      }
      FoldLength(s);
      assert !IsMark(y);
      GroupSingle(y);
    } else {
      LoneMarkVanishes(s);
    }
  }

  /** Folding a list of marks into one element keeps one character per mark. */
  lemma FoldLength(s: seq<Element>)
    requires |s| >= 1 && forall i :: 0 <= i < |s| ==> IsMark(s[i])
    ensures |s[|s| - 1] + Concat(s[..|s| - 1])| == |s|
  {
    var m := s[..|s| - 1];
    assert forall i :: 0 <= i < |m| ==> IsMark(m[i]);
    ConcatOfMarks(m);
    MarkIsOneChar(s[|s| - 1]);
  }

  /** The step of the loop at index 0 that finds a mark, on the closed form. */
  lemma WrapStep(s: seq<Element>, j: nat)
    requires j + 1 < |s|
    ensures var t := Wrapped(s, j);
      Wrapped(s, j + 1) == t[1..|t| - 1] + [t[|t| - 1] + t[0]]
  {
    var t := Wrapped(s, j);
    var y := s[|s| - 1];
    assert t[0] == s[j];
    assert t[1..|t| - 1] == s[j + 1..|s| - 1];
    assert t[|t| - 1] == y + Concat(s[..j]);
    assert Concat(s[..j + 1]) == Concat(s[..j]) + s[j] by {
      PrefixSnoc(s, j);
      ConcatAppend(s[..j], [s[j]]);
      ConcatOne(s[j]);
    }
    Assoc(y, Concat(s[..j]), s[j]);
  }

  // ---------------------------------------------------------------------
  // Worked inputs

  /** A decomposed three-letter word such as "ilé" (letters i, l, e and a
      separate combining acute): the mark joins the letter before it. */
  lemma DecomposedWord(a: Element, b: Element, c: Element, m: Element)
    requires !IsMark(a) && !IsMark(b) && !IsMark(c) && IsMark(m)
    ensures ReattachMarks([a, b, c, m]) == [a, b, c + m]
  {
    var p := [a, b, c];
    assert [a, b, c, m] == p + [m];
    assert forall e :: e in p ==> !IsMark(e);
    GroupNoMarks(p);
    GroupSnoc(p, m);
    ReattachIsGroup(p + [m]);
    assert p[..2] + [c + m] == [a, b, c + m];
  }

  /** A mark at index 0 is not rejected: it lands on the last element, so the
      joined result differs from the joined input. */
  lemma LeadingMarkWraps(m: Element, a: Element, b: Element)
    requires IsMark(m) && !IsMark(a) && !IsMark(b) && |a| == 1 && |b| == 1
    ensures ReattachMarks([m, a, b]) == [a, b + m]
    ensures Concat(ReattachMarks([m, a, b])) != Concat([m, a, b])
  {
    var s := [m, a, b];
    var t := [a, b + m];
    LeadingMarksIs(s, 1);
    assert Wrapped(s, 1) == t by {
      assert s[..1] == [m];
      ConcatOne(m);
      assert s[1..2] == [a];
    }
    assert ReattachMarks(s) == t by {
      assert WrapCount(s) == 1;
      assert |b + m| == |b| + 1;
      assert forall e :: e in t ==> !IsMark(e);
      GroupNoMarks(t);
    }
    assert Concat(s) == m + Concat([a, b]) by {
      assert s[1..] == [a, b];
    }
    assert Concat(t) == a + Concat([b + m]) by {
      assert t[1..] == [b + m];
    }
    assert Concat(s)[0] == m[0];
    assert Concat(t)[0] == a[0];
  }
  /** With a mark at index 0, a mark that ends the word does not join its
      letter: it meets the wrapped mark at the end of the list and the two
      form an element made of marks only. */
  lemma TrailingMarkStranded(m: Element, a: Element, b: Element, m2: Element)
    requires IsMark(m) && IsMark(m2) && !IsMark(a) && !IsMark(b) && |a| == 1 && |b| == 1
    ensures ReattachMarks([m, a, b, m2]) == [a, b, m2 + m]
    ensures OnlyMarks(m2 + m)
  {
    var s := [m, a, b, m2];
    var w := m2 + m;
    var t := [a, b, w];
    MarkIsOneChar(m);
    MarkIsOneChar(m2);
    LeadingMarksIs(s, 1);
    assert Wrapped(s, 1) == t by {
      assert s[..1] == [m];
      ConcatOne(m);
      assert s[1..3] == [a, b];
    }
    assert ReattachMarks(s) == t by {
      assert WrapCount(s) == 1;
      assert |w| == 2;
      assert forall e :: e in t ==> !IsMark(e);
      GroupNoMarks(t);
    }
    forall i | 0 <= i < |w| ensures IsMark([w[i]]) {
      if i == 0 {
        assert [w[0]] == m2;
      } else {
        assert [w[1]] == m;
      }
    }
  }

}
