/** The tokenizer object and the in-place loop of `parse_sign`.

    `WordList` stands for the Python list that `parse_sign` receives and
    rewrites: indexing with Python's negative indices, assignment to one slot,
    and `del` of one slot. `Tokenizer.ParseSign` is the loop itself, proved to
    leave the list equal to `Marks.ReattachMarks` of what it held before. */
module Tokenization {
  import opened Marks

  /** Python's reading of an index into a list of length `len`: a negative
      index counts from the end. */
  function PyIndex(i: int, len: nat): (k: nat)
    requires -(len as int) <= i < len
    ensures k < len && k == i % len
  {
    if i < 0 then len + i else i
  }

  /** A mutable list of strings, as the Python list passed to `parse_sign`. */
  class WordList {
    var items: seq<Element>

    constructor (elems: seq<Element>)
      ensures items == elems
    {
      items := elems;
    }

    /** `name[i]`, negative indices included. */
    function At(i: int): (e: Element)
      reads this
      requires -|items| <= i < |items|
      ensures e == items[i % |items|]
    {
      items[PyIndex(i, |items|)]
    }

    /** `name[i] = v`: one slot changes, the length stays. */
    method Set(i: int, v: Element)
      requires -|items| <= i < |items|
      modifies this
      ensures items == old(items)[PyIndex(i, |old(items)|) := v]
      ensures |items| == |old(items)|
    {
      items := items[PyIndex(i, |items|) := v];
    }

    /** `del name[i]`: the slot goes, later elements shift left by one. */
    method Delete(i: int)
      requires -|items| <= i < |items|
      modifies this
      ensures var k := PyIndex(i, |old(items)|);
        items == old(items)[..k] + old(items)[k + 1..]
      ensures |items| == |old(items)| - 1
    {
      var k := PyIndex(i, |items|);
      items := items[..k] + items[k + 1..];
    }
  }

  /** The tokenizer object: the two label dictionaries that its constructor
      creates, and the steps of its preprocessing that are modelled here. */
  class Tokenizer {
    var classToLabel: map<Element, int>
    var labelToClass: map<int, Element>

    /** Both dictionaries start out empty. */
    constructor ()
      ensures classToLabel == map[] && labelToClass == map[]
    {
      classToLabel := map[];
      labelToClass := map[];
    }

    /** Walks the list with index `n`; a mark at `n` is appended to the
        element at `n - 1` and deleted, anything else moves `n` on. At
        `n == 0` the element at `n - 1` is the last one. The list is changed
        in place and also returned. */
    method ParseSign(name: WordList) returns (r: WordList)
      modifies name
      ensures r == name
      ensures name.items == ReattachMarks(old(name.items))
    {
      ghost var s := name.items;
      // The list emptied itself: the last element left was a mark.
      ghost var vanished := s == [];
      // Passes that found a mark at index 0 so far.
      ghost var j: nat := 0;
      // Elements of `Wrapped(s, j)` that the index has moved past or merged.
      ghost var i: nat := 0;
      var n := 0;
      var lenWord := |name.items|;
      if s != [] {
        WrapNone(s);
      }
      while n < lenWord
        invariant 0 <= n <= lenWord == |name.items|
        invariant LoopState(s, vanished, j, i, name.items, n)
        decreases lenWord - n
      {
        if IsMark(name.At(n)) {
          vanished, j, i := MergeMark(name, n, s, j, i);
          lenWord := lenWord - 1;
        } else {
          MoveStep(s, j, i, name.items, n);
          i := i + 1;
          n := n + 1;
        }
      }
      LoopDone(s, vanished, j, i, name.items, n);
      r := name;
    }

    /** The body of the loop when it finds a mark at `n`: the mark is
        appended to the element at `n - 1` (the last one when `n` is 0) and
        deleted, which keeps the loop invariant with the index unchanged. */
    method MergeMark(name: WordList, n: int, ghost s: seq<Element>, ghost j: nat, ghost i: nat)
        returns (ghost vanished': bool, ghost j': nat, ghost i': nat)
      requires LoopState(s, false, j, i, name.items, n) && 0 <= n < |name.items| && IsMark(name.items[n])
      modifies name
      ensures MarkFound(s, j, i, old(name.items), n, old(name.items)[PyIndex(n - 1, |old(name.items)|)] + old(name.items)[n], name.items)
      ensures LoopState(s, vanished', j', i', name.items, n)
      ensures |name.items| == |old(name.items)| - 1
    {
      ghost var before := name.items;
      var v := name.At(n - 1) + name.At(n);
      name.Set(n - 1, v);
      name.Delete(n);
      assert MarkFound(s, j, i, before, n, v, name.items);
      vanished', j', i' := MarkStep(s, j, i, before, n, v, name.items);
    }

    /** The front of the preprocessing: `list(name)` splits the word into
        one-character strings and `parse_sign` re-attaches the marks. Unless
        the word starts with a mark, the pieces join back to the word, none of
        them is a bare mark, and there is one fewer per mark. */
    method Preprocess(word: string) returns (pieces: seq<Element>)
      ensures pieces == ReattachMarks(Chars(word))
      ensures forall e :: e in pieces ==> !IsMark(e)
      ensures word == [] || !IsMark([word[0]]) ==>
        Concat(pieces) == word && |pieces| == |word| - CountMarks(Chars(word))
    {
      var name := new WordList(Chars(word));
      name := ParseSign(name);
      pieces := name.items;
      ghost var cs := Chars(word);
      ConcatChars(word);
      if word == [] || !IsMark([word[0]]) {
        if word != [] {
          assert cs[0] == [word[0]];
        }
        ReattachPreservesConcat(cs);
        ReattachLength(cs);
      }
      ReattachNoBareMark(cs);
    }
  }

  // ---------------------------------------------------------------------
  // One step of the loop of `ParseSign`, on the closed form

  /** The loop invariant of `ParseSign` for the input `s`: either the list
      emptied itself, or the loop has made `j` passes at index 0 and the list
      is the grouping of the first `i` elements of `Wrapped(s, j)` followed by
      the rest of them untouched, with the index `n` just past the groups. */
  ghost predicate LoopState(s: seq<Element>, vanished: bool, j: nat, i: nat, items: seq<Element>, n: int)
  {
    if vanished then items == [] && ReattachMarks(s) == []
    else
      j < |s| && j <= LeadingMarks(s) && i <= |Wrapped(s, j)| &&
      items == Group(Wrapped(s, j)[..i]) + Wrapped(s, j)[i..] &&
      n == |Group(Wrapped(s, j)[..i])| &&
      (0 < i ==> j == WrapCount(s) && !IsMark(Wrapped(s, j)[0]))
  }

  /** The element at the index is the next one not yet looked at. */
  lemma AtIndex(s: seq<Element>, j: nat, i: nat, items: seq<Element>, n: int)
    requires LoopState(s, false, j, i, items, n) && 0 <= n < |items|
    ensures i < |Wrapped(s, j)| && items[n] == Wrapped(s, j)[i]
  {
  }

  /** The loop, in state `LoopState(s, false, j, i, items, n)`, finds a mark
      at `n`; `v` is the element at `n - 1` (the last one when `n` is 0)
      with the mark appended, and `after` is the list once `v` is stored
      there and the mark deleted. */
  ghost predicate MarkFound(s: seq<Element>, j: nat, i: nat, items: seq<Element>, n: int, v: Element, after: seq<Element>)
  {
    LoopState(s, false, j, i, items, n) && 0 <= n < |items| && IsMark(items[n]) &&
    v == items[PyIndex(n - 1, |items|)] + items[n] &&
    var u := items[PyIndex(n - 1, |items|) := v]; after == u[..n] + u[n + 1..]
  }

  /** The loop finds a mark at the index and keeps its invariant. */
  lemma MarkStep(s: seq<Element>, j: nat, i: nat, items: seq<Element>, n: int, v: Element, after: seq<Element>)
      returns (vanished': bool, j': nat, i': nat)
    requires MarkFound(s, j, i, items, n, v, after)
    ensures LoopState(s, vanished', j', i', after, n)
  {
    if i == 0 {
      if |Wrapped(s, j)| == 1 {
        FrontVanishes(s, j, i, items, n, v, after);
        vanished', j', i' := true, j, 0;
      } else {
        FrontWraps(s, j, i, items, n, v, after);
        vanished', j', i' := false, j + 1, 0;
      }
    } else {
      MarkMerges(s, j, i, items, n, v, after);
      vanished', j', i' := false, j, i + 1;
    }
  }

  /** At index 0, the last element left is a mark: the list empties. */
  lemma FrontVanishes(s: seq<Element>, j: nat, i: nat, items: seq<Element>, n: int, v: Element, after: seq<Element>)
    requires MarkFound(s, j, i, items, n, v, after) && i == 0 && |Wrapped(s, j)| == 1
    ensures LoopState(s, true, j, 0, after, n)
  {
    var t := Wrapped(s, j);
    assert t[..0] == [];
    assert items == t;
    WrapVanishes(s, j);
    DropLone(t, v);
  }

  /** At index 0, a mark with other elements after it: it goes to the end of
      the list and the loop looks at index 0 again. */
  lemma FrontWraps(s: seq<Element>, j: nat, i: nat, items: seq<Element>, n: int, v: Element, after: seq<Element>)
    requires MarkFound(s, j, i, items, n, v, after) && i == 0 && |Wrapped(s, j)| >= 2
    ensures LoopState(s, false, j + 1, 0, after, n)
  {
    var t := Wrapped(s, j);
    assert t[..0] == [];
    assert items == t;
    WrapAdvances(s, j);
    RotateFront(t, v);
    assert Wrapped(s, j + 1)[..0] == [];
  }

  /** Past index 0, a mark joins the group before it. */
  lemma MarkMerges(s: seq<Element>, j: nat, i: nat, items: seq<Element>, n: int, v: Element, after: seq<Element>)
    requires MarkFound(s, j, i, items, n, v, after) && 0 < i
    ensures LoopState(s, false, j, i + 1, after, n)
  {
    var t := Wrapped(s, j);
    var g := Group(t[..i]);
    AtIndex(s, j, i, items, n);
    MergeStep(t, i);
    MergeInto(g, t[i..], v);
    assert t[i..][1..] == t[i + 1..];
  }

  /** The loop finds anything else at the index and moves on. */
  lemma MoveStep(s: seq<Element>, j: nat, i: nat, items: seq<Element>, n: int)
    requires LoopState(s, false, j, i, items, n) && 0 <= n < |items| && !IsMark(items[n])
    ensures LoopState(s, false, j, i + 1, items, n + 1)
  {
    var t := Wrapped(s, j);
    AtIndex(s, j, i, items, n);
    if i == 0 {
      WrapDone(s, j);
    }
    GroupNext(t, i);
    Shift(Group(t[..i]), t[i..]);
    assert t[i..][1..] == t[i + 1..];
  }

  /** When the index reaches the end, the list is the result. */
  lemma LoopDone(s: seq<Element>, vanished: bool, j: nat, i: nat, items: seq<Element>, n: int)
    requires LoopState(s, vanished, j, i, items, n) && n >= |items|
    ensures items == ReattachMarks(s)
  {
    if !vanished {
      var t := Wrapped(s, j);
      assert i == |t|;
      assert t[..i] == t;
    }
  }

  /** The wrap-around passes left a single mark: it is appended to itself,
      then deleted. */
  lemma WrapVanishes(s: seq<Element>, j: nat)
    requires j < |s| && j <= LeadingMarks(s)
    requires |Wrapped(s, j)| == 1 && IsMark(Wrapped(s, j)[0])
    ensures ReattachMarks(s) == []
  {
    assert j == |s| - 1;
    assert WrapCount(s) == j;
  }

  /** Before any pass the list is as given. */
  lemma WrapNone(s: seq<Element>)
    requires s != []
    ensures Wrapped(s, 0)[..0] == [] && Wrapped(s, 0)[0..] == s
  {
    assert s[..0] == [];
    assert s[|s| - 1] + Concat([]) == s[|s| - 1];
    SplitLast(s, 0);
  }

  /** A mark at index 0 of a list of two or more elements: one more pass. */
  lemma WrapAdvances(s: seq<Element>, j: nat)
    requires j < |s| && j <= LeadingMarks(s)
    requires |Wrapped(s, j)| >= 2 && IsMark(Wrapped(s, j)[0])
    ensures j + 1 < |s| && j + 1 <= LeadingMarks(s)
    ensures var t := Wrapped(s, j);
      Wrapped(s, j + 1) == t[1..|t| - 1] + [t[|t| - 1] + t[0]]
  {
    var t := Wrapped(s, j);
    assert t[0] == s[j];
    LeadingMarksRun(s);
    WrapStep(s, j);
  }

  /** A non-mark at index 0: the passes are over. */
  lemma WrapDone(s: seq<Element>, j: nat)
    requires j < |s| && j <= LeadingMarks(s)
    requires !IsMark(Wrapped(s, j)[0])
    ensures j == WrapCount(s)
  {
    LeadingMarksRun(s);
    if j < |s| - 1 {
      assert Wrapped(s, j)[0] == s[j];
    }
  }

  /** A mark past index 0 joins the last group built so far. */
  lemma MergeStep(t: seq<Element>, i: nat)
    requires 0 < i < |t| && IsMark(t[i])
    ensures var g := Group(t[..i]);
      g != [] && Group(t[..i + 1]) == g[..|g| - 1] + [g[|g| - 1] + t[i]]
  {
    assert t[..i + 1] == t[..i] + [t[i]];
    GroupSnoc(t[..i], t[i]);
  }

  /** A non-mark opens a new group. */
  lemma GroupNext(t: seq<Element>, i: nat)
    requires i < |t| && !IsMark(t[i])
    ensures Group(t[..i + 1]) == Group(t[..i]) + [t[i]]
  {
    assert t[..i + 1] == t[..i] + [t[i]];
    GroupSnoc(t[..i], t[i]);
  }

  // ---------------------------------------------------------------------
  // What assignment and deletion do to the list in each case of the loop

  /** At index 0 of a one-element list: the slot is overwritten, then gone. */
  lemma DropLone<T>(t: seq<T>, v: T)
    requires |t| == 1
    ensures var u := t[0 := v]; u[..0] + u[1..] == []
  {
  }

  /** At index 0 of a longer list: the last slot is overwritten and the first
      one deleted. */
  lemma RotateFront<T>(t: seq<T>, v: T)
    requires |t| >= 2
    ensures var u := t[|t| - 1 := v]; u[..0] + u[1..] == t[1..|t| - 1] + [v]
  {
  }

  /** Past index 0: the slot before the index is overwritten and the slot at
      the index deleted. */
  lemma MergeInto<T>(g: seq<T>, rest: seq<T>, v: T)
    requires g != [] && rest != []
    ensures var u := (g + rest)[|g| - 1 := v];
      u[..|g|] + u[|g| + 1..] == g[..|g| - 1] + [v] + rest[1..]
  {
    var u := (g + rest)[|g| - 1 := v];
    assert u[..|g|] == g[..|g| - 1] + [v];
    assert u[|g| + 1..] == rest[1..];
  }

  /** Moving the index on moves one element from the rest to the front part. */
  lemma Shift<T>(g: seq<T>, rest: seq<T>)
    requires rest != []
    ensures g + rest == (g + [rest[0]]) + rest[1..]
  {
    assert rest == [rest[0]] + rest[1..];
  }
}
