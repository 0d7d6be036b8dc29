/**
  The scene search of the search bar: every scene's category name is turned
  into a display option once (underscores to spaces, canonical decomposition,
  combining marks removed), and each input keeps the options whose lower-case
  form contains the lower-case input. Unicode decomposition and lower-casing
  are taken as given string functions.
 */
module SearchBar {

  // ---------------------------------------------------------------------
  // Keeping the elements that pass a test
  // ---------------------------------------------------------------------

  /** a is s with some elements left out, the rest in their order. */
  predicate IsSubsequence<T(==)>(a: seq<T>, s: seq<T>)
    decreases |s|
  {
    if |a| == 0 then true
    else if |s| == 0 then false
    else (a[0] == s[0] && IsSubsequence(a[1..], s[1..])) || IsSubsequence(a, s[1..])
  }

  /**
    The elements of s that pass keep, in their order: the shape of both the
    regular-expression removal and Array.prototype.filter.
   */
  function KeepIf<T(==,!new)>(s: seq<T>, keep: T -> bool): (r: seq<T>)
    ensures forall i | 0 <= i < |r| :: keep(r[i])
    ensures forall x :: multiset(r)[x] == if keep(x) then multiset(s)[x] else 0
    ensures IsSubsequence(r, s)
  {
    if |s| == 0 then []
    else
      var rest := KeepIf(s[1..], keep);
      assert s == [s[0]] + s[1..];
      if keep(s[0]) then [s[0]] + rest else rest
  }

  /** Keeping from a concatenation keeps from each part. */
  lemma {:induction false} KeepIfConcat<T(!new)>(a: seq<T>, b: seq<T>, keep: T -> bool)
    ensures KeepIf(a + b, keep) == KeepIf(a, keep) + KeepIf(b, keep)
  {
    if |a| == 0 {
      assert a + b == b;
    } else {
      assert (a + b)[1..] == a[1..] + b;
      KeepIfConcat(a[1..], b, keep);
    }
  }

  /** When every element passes, nothing is left out. */
  lemma {:induction false} KeepIfAll<T(!new)>(s: seq<T>, keep: T -> bool)
    requires forall i | 0 <= i < |s| :: keep(s[i])
    ensures KeepIf(s, keep) == s
  {
    if |s| > 0 {
      KeepIfAll(s[1..], keep);
      assert s == [s[0]] + s[1..];
    }
  }

  /** Keeping with a stricter test from what a looser test kept is keeping with the stricter test. */
  lemma {:induction false} KeepIfNarrowing<T(!new)>(s: seq<T>, loose: T -> bool, strict: T -> bool)
    requires forall x :: strict(x) ==> loose(x)
    ensures KeepIf(KeepIf(s, loose), strict) == KeepIf(s, strict)
  {
    if |s| > 0 {
      KeepIfNarrowing(s[1..], loose, strict);
      var rest := KeepIf(s[1..], loose);
      if loose(s[0]) {
        assert ([s[0]] + rest)[1..] == rest;
      }
    }
  }

  // ---------------------------------------------------------------------
  // Scene names to options
  // ---------------------------------------------------------------------

  /** replace(/from/g, to) for a single character: every occurrence replaced. */
  function ReplaceAll(s: string, from: char, to: char): (r: string)
    ensures |r| == |s|
    ensures forall i | 0 <= i < |s| :: r[i] == if s[i] == from then to else s[i]
    ensures from != to ==> from !in r
  {
    if |s| == 0 then [] else [if s[0] == from then to else s[0]] + ReplaceAll(s[1..], from, to)
  }

  /** A code point in the Combining Diacritical Marks block, U+0300 to U+036F. */
  predicate IsCombiningMark(c: char) {
    0x300 <= c as int <= 0x36F
  }

  /** replace(/[\u0300-\u036f]/g, ""): every combining mark removed. */
  function StripMarks(s: string): (r: string)
    ensures forall i | 0 <= i < |r| :: !IsCombiningMark(r[i])
    ensures forall c | !IsCombiningMark(c) :: multiset(r)[c] == multiset(s)[c]
    ensures IsSubsequence(r, s)
  {
    KeepIf(s, c => !IsCombiningMark(c))
  }

  /** Text without combining marks is left as it is; in particular stripping twice is stripping once. */
  lemma StripMarksIdempotent(s: string)
    ensures StripMarks(StripMarks(s)) == StripMarks(s)
    ensures (forall i | 0 <= i < |s| :: !IsCombiningMark(s[i])) ==> StripMarks(s) == s
  {
    KeepIfAll(StripMarks(s), c => !IsCombiningMark(c));
    if forall i | 0 <= i < |s| :: !IsCombiningMark(s[i]) {
      KeepIfAll(s, c => !IsCombiningMark(c));
    }
  }

  /** The marks of a word are removed wherever it stands in a name. */
  lemma StripMarksConcat(a: string, b: string)
    ensures StripMarks(a + b) == StripMarks(a) + StripMarks(b)
  {
    KeepIfConcat(a, b, c => !IsCombiningMark(c));
  }

  /** One option: underscores to spaces, then decomposition, then the marks removed. */
  function ProcessName(nfd: string -> string, catName: string): (option: string)
    ensures forall i | 0 <= i < |option| :: !IsCombiningMark(option[i])
    ensures IsSubsequence(option, nfd(ReplaceAll(catName, '_', ' ')))
  {
    StripMarks(nfd(ReplaceAll(catName, '_', ' ')))
  }

  /**
    No underscore survives into an option, as long as decomposition
    introduces none into text that has none (canonical decomposition maps no
    character to a sequence holding '_').
   */
  lemma ProcessNameHasNoUnderscore(nfd: string -> string, catName: string)
    requires forall t :: '_' !in t ==> '_' !in nfd(t)
    ensures '_' !in ProcessName(nfd, catName)
  {
    var spaced := ReplaceAll(catName, '_', ' ');
    var option := ProcessName(nfd, catName);
    assert multiset(option)['_'] == multiset(nfd(spaced))['_'] == 0;
  }

  /** processedOptions: one option per scene, in scene order. */
  function ProcessedOptions(nfd: string -> string, catNames: seq<string>): (options: seq<string>)
    ensures |options| == |catNames|
    ensures forall i | 0 <= i < |catNames| :: options[i] == ProcessName(nfd, catNames[i])
  {
    if |catNames| == 0 then [] else [ProcessName(nfd, catNames[0])] + ProcessedOptions(nfd, catNames[1..])
  }

  /** Options for a list of scenes followed by more scenes are the options of each list in turn. */
  lemma {:induction false} ProcessedOptionsConcat(nfd: string -> string, a: seq<string>, b: seq<string>)
    ensures ProcessedOptions(nfd, a + b) == ProcessedOptions(nfd, a) + ProcessedOptions(nfd, b)
  {
    if |a| == 0 {
      assert a + b == b;
    } else {
      assert (a + b)[1..] == a[1..] + b;
      ProcessedOptionsConcat(nfd, a[1..], b);
    }
  }

  // ---------------------------------------------------------------------
  // String.prototype.includes
  // ---------------------------------------------------------------------

  /** needle stands in hay at position i. */
  predicate OccursAt(hay: string, needle: string, i: int) {
    0 <= i && i + |needle| <= |hay| && hay[i..i + |needle|] == needle
  }

  /** hay.includes(needle): tried at each position from the left. */
  function Includes(hay: string, needle: string): (r: bool)
    ensures r <==> exists i :: OccursAt(hay, needle, i)
  {
    if |needle| <= |hay| && hay[..|needle|] == needle then
      assert OccursAt(hay, needle, 0);
      true
    else if |hay| == 0 then
      assert forall i :: !OccursAt(hay, needle, i);
      false
    else
      var r := Includes(hay[1..], needle);
      ShiftedOccurrence(hay, needle);
      r
  }

  /** An occurrence past the first position is an occurrence in the rest of the text. */
  lemma ShiftedOccurrence(hay: string, needle: string)
    requires |hay| > 0 && !OccursAt(hay, needle, 0)
    ensures (exists i :: OccursAt(hay, needle, i)) <==> exists i :: OccursAt(hay[1..], needle, i)
  {
    forall i | OccursAt(hay[1..], needle, i)
      ensures OccursAt(hay, needle, i + 1)
    {
      assert hay[i + 1..i + 1 + |needle|] == hay[1..][i..i + |needle|];
    }
    forall i | OccursAt(hay, needle, i)
      ensures OccursAt(hay[1..], needle, i - 1)
    {
      assert i != 0;
      assert hay[1..][i - 1..i - 1 + |needle|] == hay[i..i + |needle|];
    }
  }

  /** Containment is transitive: text holding a word holds every piece of that word. */
  lemma IncludesTransitive(a: string, b: string, c: string)
    requires Includes(a, b) && Includes(b, c)
    ensures Includes(a, c)
  {
    var i :| OccursAt(a, b, i);
    var j :| OccursAt(b, c, j);
    forall k | 0 <= k < |c|
      ensures a[i + j + k] == c[k]
    {
      assert a[i + j + k] == a[i..i + |b|][j + k];
      assert b[j + k] == b[j..j + |c|][k];
    }
    assert a[i + j..i + j + |c|] == c;
    assert OccursAt(a, c, i + j);
  }

  /** Every text holds the empty string, and the text itself. */
  lemma IncludesTrivial(hay: string)
    ensures Includes(hay, "") && Includes(hay, hay)
  {
    assert OccursAt(hay, "", 0);
    assert OccursAt(hay, hay, 0);
  }

  // ---------------------------------------------------------------------
  // The filter
  // ---------------------------------------------------------------------

  /** name.toLowerCase().includes(input.toLowerCase()) */
  predicate Matches(lower: string -> string, input: string, name: string) {
    Includes(lower(name), lower(input))
  }

  /**
    The options shown for an input: all of processedOptions for the empty
    input, otherwise those that match it. It reads processedOptions and the
    current input only, never the options shown before.
   */
  function FilterOptions(lower: string -> string, processed: seq<string>, input: string): (shown: seq<string>)
    ensures input == "" ==> shown == processed
    ensures input != "" ==> forall i | 0 <= i < |shown| :: Matches(lower, input, shown[i])
    ensures input != "" ==> forall name ::
      multiset(shown)[name] == if Matches(lower, input, name) then multiset(processed)[name] else 0
    ensures IsSubsequence(shown, processed)
  {
    if input == "" then
      KeepIfAll(processed, name => true);
      processed
    else KeepIf(processed, name => Matches(lower, input, name))
  }

  /** An option is shown exactly when it is one of processedOptions and the input is empty or matches it. */
  lemma FilterMembership(lower: string -> string, processed: seq<string>, input: string, name: string)
    ensures name in FilterOptions(lower, processed, input) <==>
      name in processed && (input == "" || Matches(lower, input, name))
  {
    var shown := FilterOptions(lower, processed, input);
    assert name in shown <==> multiset(shown)[name] > 0;
    assert name in processed <==> multiset(processed)[name] > 0;
  }

  /**
    Typing on: when the new input (lower-cased) contains the old one, filtering
    what the old input showed gives what the new input shows. Had the filter
    started from the shown list, the shorter input after a deletion would only
    see the narrower list; it always starts from processedOptions instead.
   */
  lemma NarrowingInputAgrees(lower: string -> string, processed: seq<string>, old_input: string, new_input: string)
    requires old_input != "" && new_input != ""
    requires Includes(lower(new_input), lower(old_input))
    ensures FilterOptions(lower, FilterOptions(lower, processed, old_input), new_input)
         == FilterOptions(lower, processed, new_input)
  {
    forall name | Matches(lower, new_input, name)
      ensures Matches(lower, old_input, name)
    {
      IncludesTransitive(lower(name), lower(new_input), lower(old_input));
    }
    KeepIfNarrowing(processed, name => Matches(lower, old_input, name), name => Matches(lower, new_input, name));
  }

  /** Filtering twice with the same input shows the same options as filtering once. */
  lemma FilterIdempotent(lower: string -> string, processed: seq<string>, input: string)
    ensures FilterOptions(lower, FilterOptions(lower, processed, input), input) == FilterOptions(lower, processed, input)
  {
    if input != "" {
      KeepIfNarrowing(processed, name => Matches(lower, input, name), name => Matches(lower, input, name));
    }
  }
}
