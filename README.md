# Tonal-mark re-attachment in the Yoruba name tokenizer

The tokenizer of the Yoruba-Names project splits a name into a list of
one-character strings. In decomposed Unicode, a tone mark or under-dot is a
combining code point of its own, so splitting leaves it as a separate
element. `parse_sign` walks the list with an index and glues each such mark
onto the element before it, in place. This project models that step and the
object it belongs to:

- `marks.dfy` (module `Marks`) holds the pure specification:
  - the five mark code points U+0300, U+0301, U+0341, U+0323 and U+0329;
  - what counts as a mark element;
  - `Group`, the reference meaning of the step: each element takes the run
    of marks that follows it;
  - `ReattachMarks`, the exact result of the loop on any list, including a
    mark at index 0. There, Python's index `-1` sends the mark to the end of
    the list.

  It also proves what the step guarantees:
  - when the word does not start with a mark:
    - the joined text is kept;
    - the length drops by one per mark;
    - the non-mark elements stay in order, each followed only by marks;
  - for lists of non-empty elements, as `list(name)` produces:
    - no element is left that equals a single mark, whatever the first
      element. The loop's own membership test therefore finds nothing more
      to do;
    - the step is idempotent;
  - when the word starts with marks:
    - the joined text is the rest of the word followed by the leading
      marks;
    - a list of marks only folds into one element, or vanishes when it is
      a single mark;
    - a mark that ends the word does not join its letter. It fuses with the
      wrapped leading mark into an element made of marks only, which no
      longer counts as a mark.
- `tokenizer.dfy` (module `Tokenization`) holds the imperative part:
  - `WordList` is the mutable Python list. It models negative indexing,
    assignment to one slot and `del` of one slot.
  - `Tokenizer` is the class with its two label dictionaries.
  - `Tokenizer.ParseSign` is the loop itself. It is proved to leave the list
    equal to `ReattachMarks` of what it held.
  - `Tokenizer.Preprocess` is the `list(name)` front of preprocessing followed
    by `parse_sign`.

A mark at index 0 is not rejected by the code. The mark is appended to the
last element and deleted from the front. The loop then looks at index 0
again, so a run of leading marks is moved, one by one, to the end of the
list. A list that ends up as one single mark deletes that mark and becomes
empty. One could expect this case to be reported as malformed input. The
model follows the code: it has no error path. `ReattachRotates` and
`LeadingMarkWraps` state what happens instead.

## Model

| member | source | states |
|---|---|---|
| Marks.ReattachMarks | src/tokenizer.py:21-40 | the list `parse_sign` returns for any input, wrap-around included: grouping after the wrap passes, or empty when they leave a single mark; never longer than the input |
| Marks.MarkListMembership | src/tokenizer.py:26-32 | `IsMark`, a one-character string whose character is in the set `TonalMarks`, is exactly Python's `in` test against the five-string list of marks |
| Marks.Chars | src/tokenizer.py:14 | `list(name)` gives one element per character |
| Marks.Wrapped | src/tokenizer.py:34-36 | after `j` wrap passes the list is `j` elements shorter: each pass appends the front mark to the last element and deletes it |
| Marks.WrapCount | src/tokenizer.py:30-37 | the loop wraps at most once per leading mark, and never past the last element |
| Marks.Vanishes | src/tokenizer.py:34-36 | the list empties itself only when every element but possibly the last is a mark |
| Marks.LeadingMarks | src/tokenizer.py:30-37 | the number of marks at the front of the list is at most its length |
| Marks.LeadingMarksRun | src/tokenizer.py:30-37 | every element before `LeadingMarks(s)` is a mark, and the element there, if any, is not |
| Marks.NonMarks | src/tokenizer.py:38-39 | the elements the index moves past number the length minus the marks |
| Marks.Group | src/tokenizer.py:30-39 | the grouping is never longer than the input, and is empty exactly when the input is |
| Marks.GroupSnoc | src/tokenizer.py:32-39 | appending one element to the input: a mark extends the last group, anything else adds a new group |
| Marks.GroupConcat | src/tokenizer.py:34 | joining the groups gives the joined input: marks are moved onto their neighbour, never lost or reordered |
| Marks.GroupShape | src/tokenizer.py:34-37 | without a leading mark, the groups are the non-mark elements in order, each followed only by mark characters, one per deleted mark |
| Marks.GroupNoMarks | src/tokenizer.py:38-39 | a list without marks is its own grouping |
| Marks.ReattachIsGroup | src/tokenizer.py:21-40 | without a mark at index 0 the loop never wraps, and its result is the grouping |
| Marks.ReattachPreservesConcat | src/tokenizer.py:34-36 | without a leading mark, the result joins to the same text as the input |
| Marks.ReattachLength | src/tokenizer.py:36-37 | without a leading mark, the result is shorter than the input by the number of mark elements |
| Marks.ReattachKeepsOrder | src/tokenizer.py:30-39 | without a leading mark, the non-mark elements keep their order, each at the front of its result element with only marks after it |
| Marks.ReattachNoMarks | src/tokenizer.py:38-39 | a list without marks comes back unchanged |
| Marks.WrappedHead | src/tokenizer.py:34 | for a list of non-empty elements that is not a lone mark, the list left by the wrap-around passes does not start with a mark and its elements stay non-empty |
| Marks.ReattachNoBareMark | src/tokenizer.py:32-37 | for non-empty elements, no element of the result equals a single mark, whatever the input's first element; an element made of several marks can remain (`TrailingMarkStranded`) |
| Marks.ReattachIdempotent | src/tokenizer.py:21-40 | for non-empty elements, re-attaching the marks of a result changes nothing |
| Marks.ReattachRotates | src/tokenizer.py:34 | with leading marks and something after them, the result joins to the rest of the word followed by the leading marks |
| Marks.ReattachAllMarks | src/tokenizer.py:34-36 | a lone mark vanishes; two or more marks fold into one element, the last mark followed by the others |
| Marks.LoneMarkVanishes | src/tokenizer.py:34-36 | a list holding one mark comes back empty |
| Marks.WrapStep | src/tokenizer.py:34-36 | a pass at index 0 that finds a mark moves it to the end of the last element and drops it from the front |
| Marks.ConcatChars | src/tokenizer.py:14 | splitting a string into one-character strings and joining them back gives the string |
| Marks.DecomposedWord | src/tokenizer.py:32-37 | three letters and a separate mark: the mark joins the third letter |
| Marks.LeadingMarkWraps | src/tokenizer.py:34 | a mark before two letters lands on the last letter, so the joined result differs from the input |
| Marks.TrailingMarkStranded | src/tokenizer.py:30-39 | with a mark at index 0, a word-final mark fuses with the wrapped mark instead of joining its letter: `[m, a, b, m2]` gives `[a, b, m2 + m]`, and `m2 + m` is marks only |
| Tokenization.PyIndex | src/tokenizer.py:34 | Python's reading of an index from `-len` to `len - 1` is the index modulo the length, so `-1` is the last slot |
| Tokenization.WordList.At | src/tokenizer.py:32-34 | `name[i]` reads the slot at `i` modulo the length, so `name[n - 1]` with `n == 0` reads the last element |
| Tokenization.WordList.constructor | src/tokenizer.py:14 | the list holds the given elements |
| Tokenization.WordList.Set | src/tokenizer.py:34 | assignment changes the one slot that the Python index names, with `-1` meaning the last, and keeps the length |
| Tokenization.WordList.Delete | src/tokenizer.py:36 | deletion removes the one slot and shifts the later elements left |
| Tokenization.Tokenizer.constructor | src/tokenizer.py:6-8 | both label dictionaries start empty |
| Tokenization.Tokenizer.ParseSign | src/tokenizer.py:21-40 | the loop returns the list it was given, changed in place to `ReattachMarks` of its old contents |
| Tokenization.Tokenizer.Preprocess | src/tokenizer.py:14-15 | the pieces are `ReattachMarks` of the word's characters and none of them equals a single mark; unless the word starts with a mark, they also join back to the word and are one fewer per mark |
| Tokenization.Tokenizer.MergeMark | src/tokenizer.py:32-37 | the body of the loop on a mark: the new list is the old one with the merged element stored at `n - 1` (the last slot when `n` is 0) and slot `n` deleted (`MarkFound`); the loop invariant holds and the list is one shorter |
| Tokenization.MarkStep | src/tokenizer.py:32-37 | a mark at the index keeps the loop invariant with the index unchanged and the list one shorter |
| Tokenization.FrontWraps | src/tokenizer.py:34-37 | at index 0 a mark with other elements after it starts one more wrap-around pass |
| Tokenization.FrontVanishes | src/tokenizer.py:34-37 | at index 0 a mark that is the only element empties the list, which is then the result |
| Tokenization.MarkMerges | src/tokenizer.py:32-37 | past index 0 a mark joins the last group built so far |
| Tokenization.MoveStep | src/tokenizer.py:38-39 | anything else at the index moves it one on and keeps the loop invariant |
| Tokenization.LoopDone | src/tokenizer.py:30-40 | when the index reaches the length, the list is the result |

## Left out

- `name.strip()` and `name.lower()` (src/tokenizer.py:12-13). Python's Unicode whitespace and case mapping are not modelled. `Preprocess` starts from the already trimmed and lowered word.
- `map_vowels` and `n_char` (src/tokenizer.py:16-17) are not part of this model. Their definitions are not in the source file.
- Tokenization.Tokenizer.Preprocess: stops after `parse_sign`. It does not apply the vowel table or the multi-character merging, so it states nothing about the final list that `preprocess` returns.
- The vocabulary, the label mappings' construction, encoding, decoding and padding are not part of this model.
- `src/data/scrap.py` (fetching names over the network) is not part of this model.
- A mark at index 0 has no error path. The code wraps it to the end of the list instead of raising, and the model follows the code.
- Code point U+0341 (combining acute tone mark) is kept as a mark of its own. It is not identified with U+0301, because membership is by string equality.
- Marks.ReattachNoBareMark: requires every element to be non-empty. A list such as `[letter, "", mark]` gives the mark to the empty element, which leaves a bare mark. Elements produced by `list(name)` always have one character.
- Marks.ReattachIdempotent: requires every element to be non-empty, for the same reason.
- Marks.ReattachRotates: requires every element to be non-empty. With an empty last element, the single leading mark can vanish instead of rotating.
