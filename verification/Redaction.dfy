/** Machine identifiers are replaced by placeholders, one needle after another.
    A replacement puts new text next to old text, so the question is whether a
    needle can survive or be born across the seams. */
module Redaction {

  predicate OccursAt(needle: string, text: string, i: int) {
    0 <= i <= |text| - |needle| && text[i..i + |needle|] == needle
  }

  predicate Occurs(needle: string, text: string) {
    exists i :: 0 <= i <= |text| && OccursAt(needle, text, i)
  }

  /** `str.replace`: leftmost, non-overlapping. An empty needle matches between
      any two characters and at both ends. */
  function ReplaceAll(text: string, needle: string, placeholder: string): string {
    if needle == "" then
      if text == "" then placeholder else placeholder + [text[0]] + ReplaceAll(text[1..], needle, placeholder)
    else if |text| < |needle| then text
    else if text[..|needle|] == needle then placeholder + ReplaceAll(text[|needle|..], needle, placeholder)
    else [text[0]] + ReplaceAll(text[1..], needle, placeholder)
  }

  datatype Substitution = Substitution(needle: string, placeholder: string)

  predicate NoBrackets(s: string) {
    '<' !in s && '>' !in s
  }

  predicate Bracketed(s: string) {
    |s| >= 2 && s[0] == '<' && s[|s| - 1] == '>'
  }

  /** Needles without angle brackets, placeholders inside them, and no needle
      inside a placeholder. */
  predicate SafeMap(against: seq<Substitution>) {
    && (forall k :: 0 <= k < |against| ==> NoBrackets(against[k].needle) && Bracketed(against[k].placeholder))
    && (forall j, k :: 0 <= j < |against| && 0 <= k < |against| ==> !Occurs(against[j].needle, against[k].placeholder))
  }

  ghost predicate Clean(text: string, against: seq<Substitution>) {
    forall k :: 0 <= k < |against| ==> !Occurs(against[k].needle, text)
  }

  // ---- what one replacement is ----

  predicate FirstOccursAt(needle: string, text: string, n: nat) {
    OccursAt(needle, text, n) && forall m :: 0 <= m < n ==> !OccursAt(needle, text, m)
  }

  lemma OccursAtBehind(needle: string, text: string, i: nat)
    requires text != ""
    ensures OccursAt(needle, text[1..], i) <==> OccursAt(needle, text, i + 1)
  {
    if i + 1 + |needle| <= |text| {
      assert text[1..][i..i + |needle|] == text[i + 1..i + 1 + |needle|];
    }
  }

  /** The text in front of the first occurrence stays, the occurrence becomes the
      placeholder, and the rest is treated in the same way. A text without an
      occurrence stays as it is (`AbsentIsUntouched`). */
  lemma ReplaceAllAtFirst(text: string, needle: string, placeholder: string, n: nat)
    requires needle != "" && OccursAt(needle, text, n)
    requires forall m :: 0 <= m < n ==> !OccursAt(needle, text, m)
    ensures ReplaceAll(text, needle, placeholder)
            == text[..n] + placeholder + ReplaceAll(text[n + |needle|..], needle, placeholder)
  {
    OpensAtFirst(text, needle, placeholder, n);
  }

  lemma {:induction false} OpensAtFirst(text: string, needle: string, placeholder: string, n: nat)
    requires needle != "" && FirstOccursAt(needle, text, n)
    ensures OpensAt(text, needle, placeholder, n)
    decreases n
  {
    if n == 0 {
      ReplacedAtFront(text, needle, placeholder);
    } else {
      FirstBehind(needle, text, n);
      OpensAtFirst(text[1..], needle, placeholder, n - 1);
      SkippedAtFront(text, text[1..], needle, placeholder, n);
    }
  }

  /** The result is the first `n` characters, the placeholder, and the result of what
      follows the needle. */
  predicate OpensAt(text: string, needle: string, placeholder: string, n: nat)
  {
    && n + |needle| <= |text|
    && ReplaceAll(text, needle, placeholder)
       == text[..n] + placeholder + ReplaceAll(text[n + |needle|..], needle, placeholder)
  }

  lemma ReplacedAtFront(text: string, needle: string, placeholder: string)
    requires needle != "" && OccursAt(needle, text, 0)
    ensures OpensAt(text, needle, placeholder, 0)
  {
    assert text[0..|needle|] == text[..|needle|];
    assert text[..0] + placeholder == placeholder;
  }

  lemma SkippedAtFront(text: string, tail: string, needle: string, placeholder: string, n: nat)
    requires needle != "" && 0 < n && n + |needle| <= |text| && text[..|needle|] != needle
    requires tail == text[1..] && OpensAt(tail, needle, placeholder, n - 1)
    ensures OpensAt(text, needle, placeholder, n)
  {
    assert ReplaceAll(text, needle, placeholder) == [text[0]] + ReplaceAll(tail, needle, placeholder);
    Regroup(text, n, n + |needle|, placeholder, ReplaceAll(text[n + |needle|..], needle, placeholder));
  }

  lemma FirstBehind(needle: string, text: string, n: nat)
    requires needle != "" && FirstOccursAt(needle, text, n) && n > 0
    ensures FirstOccursAt(needle, text[1..], n - 1) && text[..|needle|] != needle
  {
    assert !OccursAt(needle, text, 0) && text[0..|needle|] == text[..|needle|];
    OccursAtBehind(needle, text, n - 1);
    forall m | 0 <= m < n - 1 ensures !OccursAt(needle, text[1..], m) {
      OccursAtBehind(needle, text, m);
    }
  }

  lemma Regroup(text: string, n: nat, m: nat, middle: string, rest: string)
    requires 0 < n <= m <= |text|
    ensures text[1..][m - 1..] == text[m..]
    ensures [text[0]] + (text[1..][..n - 1] + middle + rest) == text[..n] + middle + rest
  {
    var front := text[1..][..n - 1];
    assert text[..n] == [text[0]] + front;
    Associative([text[0]], front, middle, rest);
  }

  lemma Associative(a: string, b: string, c: string, d: string)
    ensures a + (b + c + d) == a + b + c + d
    ensures a + (b + c) == a + b + c
  {
  }

  lemma EmptyNeedleFront(text: string, placeholder: string)
    ensures placeholder <= ReplaceAll(text, "", placeholder)
    ensures |text| == 1 ==> ReplaceAll(text, "", placeholder) == placeholder + text + placeholder
    ensures text == "" ==> ReplaceAll(text, "", placeholder) == placeholder
  {
  }

  /** The empty needle is met once before every character and once at the end. */
  lemma {:induction false} EmptyNeedleEverywhere(a: string, b: string, placeholder: string)
    ensures placeholder <= ReplaceAll(b, "", placeholder)
    ensures ReplaceAll(a + b, "", placeholder)
            == ReplaceAll(a, "", placeholder) + ReplaceAll(b, "", placeholder)[|placeholder|..]
    decreases |a|
  {
    EmptyNeedleFront(b, placeholder);
    var after := ReplaceAll(b, "", placeholder)[|placeholder|..];
    if a == "" {
      assert a + b == b && placeholder + after == ReplaceAll(b, "", placeholder);
    } else {
      EmptyNeedleEverywhere(a[1..], b, placeholder);
      assert (a + b)[1..] == a[1..] + b && (a + b)[0] == a[0];
      var rest := ReplaceAll(a[1..], "", placeholder);
      Associative(placeholder + [a[0]], rest, after, "");
      assert ReplaceAll(a, "", placeholder) == placeholder + [a[0]] + rest;
    }
  }

  // ---- one replacement ----

  lemma OccursShift(needle: string, front: string, back: string)
    requires Occurs(needle, back)
    ensures Occurs(needle, front + back)
  {
    var i :| 0 <= i <= |back| && OccursAt(needle, back, i);
    assert (front + back)[|front| + i..|front| + i + |needle|] == back[i..i + |needle|];
    assert OccursAt(needle, front + back, |front| + i);
  }

  lemma EmptyOccurs(text: string)
    ensures Occurs("", text)
  {
    assert OccursAt("", text, 0);
  }

  /** An occurrence is at the front, or it is an occurrence behind the front. */
  lemma OccursBehind(needle: string, front: string, back: string, i: int)
    requires OccursAt(needle, front + back, i) && i >= |front|
    ensures Occurs(needle, back)
  {
    assert back[i - |front|..i - |front| + |needle|] == (front + back)[i..i + |needle|];
    assert OccursAt(needle, back, i - |front|);
  }

  lemma OccurrenceChar(needle: string, text: string, i: int, k: nat)
    requires OccursAt(needle, text, i) && k < |needle|
    ensures needle[k] == text[i + k]
  {
    assert text[i..i + |needle|][k] == text[i + k];
  }

  /** A bracket-free beginning of the result was a beginning of the text. */
  lemma {:induction false} PrefixKept(probe: string, text: string, needle: string, placeholder: string)
    requires NoBrackets(probe) && Bracketed(placeholder) && needle != ""
    requires probe <= ReplaceAll(text, needle, placeholder)
    ensures probe <= text
    decreases |text|
  {
    if probe != "" && |text| >= |needle| && text[..|needle|] != needle {
      var tail := ReplaceAll(text[1..], needle, placeholder);
      assert ReplaceAll(text, needle, placeholder) == [text[0]] + tail;
      assert probe == [probe[0]] + probe[1..];
      PrefixKept(probe[1..], text[1..], needle, placeholder);
      assert text == [text[0]] + text[1..];
    }
  }

  /** A bracket-free probe that straddles a placeholder's edge would contain the
      edge, so it lies wholly inside the placeholder or wholly behind it. */
  lemma BehindPlaceholder(probe: string, placeholder: string, rest: string, i: int)
    requires NoBrackets(probe) && Bracketed(placeholder) && !Occurs(probe, placeholder)
    requires OccursAt(probe, placeholder + rest, i)
    ensures Occurs(probe, rest)
  {
    var whole, n := placeholder + rest, |placeholder|;
    if i >= n {
      OccursBehind(probe, placeholder, rest, i);
    } else if i + |probe| <= n {
      assert whole[i..i + |probe|] == placeholder[i..i + |probe|];
      assert OccursAt(probe, placeholder, i);
    } else {
      OccurrenceChar(probe, whole, i, n - 1 - i);
    }
  }

  /** Replacing one needle never gives birth to an occurrence of any needle. */
  lemma {:induction false} NoNewOccurrence(probe: string, text: string, needle: string, placeholder: string)
    requires NoBrackets(probe) && Bracketed(placeholder) && !Occurs(probe, placeholder) && needle != ""
    requires Occurs(probe, ReplaceAll(text, needle, placeholder))
    ensures Occurs(probe, text)
    decreases |text|
  {
    if |text| >= |needle| {
      var result := ReplaceAll(text, needle, placeholder);
      var i :| 0 <= i <= |result| && OccursAt(probe, result, i);
      if text[..|needle|] == needle {
        BehindPlaceholder(probe, placeholder, ReplaceAll(text[|needle|..], needle, placeholder), i);
        NoNewOccurrence(probe, text[|needle|..], needle, placeholder);
        OccursShift(probe, text[..|needle|], text[|needle|..]);
        assert text == text[..|needle|] + text[|needle|..];
      } else if i == 0 {
        assert result[0..|probe|] == result[..|probe|];
        PrefixKept(probe, text, needle, placeholder);
        assert OccursAt(probe, text, 0);
      } else {
        OccursBehind(probe, [text[0]], ReplaceAll(text[1..], needle, placeholder), i);
        NoNewOccurrence(probe, text[1..], needle, placeholder);
        OccursShift(probe, text[..1], text[1..]);
        assert text == text[..1] + text[1..];
      }
    }
  }

  /** The needle just replaced is gone. */
  lemma {:induction false} ReplacedIsGone(text: string, needle: string, placeholder: string)
    requires NoBrackets(needle) && Bracketed(placeholder) && !Occurs(needle, placeholder) && needle != ""
    ensures !Occurs(needle, ReplaceAll(text, needle, placeholder))
    decreases |text|
  {
    var result := ReplaceAll(text, needle, placeholder);
    if |text| >= |needle| {
      forall i | 0 <= i <= |result| ensures !OccursAt(needle, result, i) {
        if OccursAt(needle, result, i) {
          OccurrenceMovesOn(text, needle, placeholder, i);
          if text[..|needle|] == needle {
            ReplacedIsGone(text[|needle|..], needle, placeholder);
          } else {
            ReplacedIsGone(text[1..], needle, placeholder);
          }
        }
      }
    }
  }

  lemma OccurrenceMovesOn(text: string, needle: string, placeholder: string, i: int)
    requires NoBrackets(needle) && Bracketed(placeholder) && !Occurs(needle, placeholder) && needle != ""
    requires |text| >= |needle| && OccursAt(needle, ReplaceAll(text, needle, placeholder), i)
    ensures text[..|needle|] == needle ==> Occurs(needle, ReplaceAll(text[|needle|..], needle, placeholder))
    ensures text[..|needle|] != needle ==> Occurs(needle, ReplaceAll(text[1..], needle, placeholder))
  {
    var result := ReplaceAll(text, needle, placeholder);
    if text[..|needle|] == needle {
      BehindPlaceholder(needle, placeholder, ReplaceAll(text[|needle|..], needle, placeholder), i);
    } else if i == 0 {
      assert result[0..|needle|] == result[..|needle|];
      PrefixKept(needle, text, needle, placeholder);
    } else {
      OccursBehind(needle, [text[0]], ReplaceAll(text[1..], needle, placeholder), i);
    }
  }

  lemma {:induction false} AbsentIsUntouched(text: string, needle: string, placeholder: string)
    requires !Occurs(needle, text)
    ensures ReplaceAll(text, needle, placeholder) == text
    decreases |text|
  {
    if needle == "" {
      EmptyOccurs(text);
    } else if |text| >= |needle| {
      assert text == text[..1] + text[1..];
      if Occurs(needle, text[1..]) {
        OccursShift(needle, text[..1], text[1..]);
      } else {
        AbsentIsUntouched(text[1..], needle, placeholder);
        assert !OccursAt(needle, text, 0);
        assert text[0..|needle|] == text[..|needle|];
      }
    }
  }

  lemma NeedleAlone(needle: string, placeholder: string)
    requires needle != ""
    ensures ReplaceAll(needle, needle, placeholder) == placeholder
  {
    assert needle[..|needle|] == needle && needle[|needle|..] == "";
    assert ReplaceAll("", needle, placeholder) == "";
    assert placeholder + "" == placeholder;
  }

  ghost predicate Purges(needle: string, placeholder: string) {
    forall text :: !Occurs(needle, ReplaceAll(text, needle, placeholder))
  }

  /** Replacing a needle removes it from every text exactly when the needle does
      not occur in its own placeholder. */
  lemma PurgesIffNotInPlaceholder(needle: string, placeholder: string)
    requires Bracketed(placeholder) && NoBrackets(needle)
    ensures Purges(needle, placeholder) <==> !Occurs(needle, placeholder)
  {
    EmptyOccurs(placeholder);
    if !Occurs(needle, placeholder) {
      forall text ensures !Occurs(needle, ReplaceAll(text, needle, placeholder)) {
        ReplacedIsGone(text, needle, placeholder);
      }
    } else if needle == "" {
      EmptyOccurs(ReplaceAll(placeholder, needle, placeholder));
      assert Occurs(needle, ReplaceAll(placeholder, needle, placeholder));
    } else {
      NeedleAlone(needle, placeholder);
    }
  }

  /** With a placeholder longer than its needle, replacing only ever lengthens a
      text, and does so whenever the needle is there. */
  lemma {:induction false} ReplacingLengthens(text: string, needle: string, placeholder: string)
    requires |placeholder| > |needle|
    ensures |ReplaceAll(text, needle, placeholder)| >= |text|
    ensures Occurs(needle, text) ==> |ReplaceAll(text, needle, placeholder)| > |text|
    decreases |text|
  {
    if needle == "" {
      if text != "" {
        ReplacingLengthens(text[1..], needle, placeholder);
      }
    } else if |text| >= |needle| {
      if text[..|needle|] == needle {
        ReplacingLengthens(text[|needle|..], needle, placeholder);
      } else {
        ReplacingLengthens(text[1..], needle, placeholder);
        if Occurs(needle, text) {
          var i :| 0 <= i <= |text| && OccursAt(needle, text, i);
          assert text == text[..1] + text[1..];
          OccursBehind(needle, text[..1], text[1..], i);
        }
      }
    }
  }

  ghost predicate Idempotent(needle: string, placeholder: string) {
    forall text :: ReplaceAll(ReplaceAll(text, needle, placeholder), needle, placeholder)
                   == ReplaceAll(text, needle, placeholder)
  }

  /** Replacing a needle twice is replacing it once, in every text, exactly when the
      needle does not occur in its own placeholder. */
  lemma IdempotentIffNotInPlaceholder(needle: string, placeholder: string)
    requires Bracketed(placeholder) && NoBrackets(needle)
    ensures Idempotent(needle, placeholder) <==> !Occurs(needle, placeholder)
  {
    EmptyOccurs(placeholder);
    if !Occurs(needle, placeholder) {
      forall text ensures ReplaceAll(ReplaceAll(text, needle, placeholder), needle, placeholder)
                          == ReplaceAll(text, needle, placeholder) {
        ReplacedIsGone(text, needle, placeholder);
        AbsentIsUntouched(ReplaceAll(text, needle, placeholder), needle, placeholder);
      }
    } else {
      ShorterThanPlaceholder(needle, placeholder);
      ReplacingLengthens(placeholder, needle, placeholder);
      var text := if needle == "" then "" else needle;
      if needle != "" {
        NeedleAlone(needle, placeholder);
      }
      assert ReplaceAll(text, needle, placeholder) == placeholder;
      assert ReplaceAll(placeholder, needle, placeholder) != placeholder;
    }
  }

  lemma ShorterThanPlaceholder(needle: string, placeholder: string)
    requires Bracketed(placeholder) && NoBrackets(needle) && Occurs(needle, placeholder)
    ensures |needle| < |placeholder|
  {
    var i :| 0 <= i <= |placeholder| && OccursAt(needle, placeholder, i);
    assert placeholder[i..i + |needle|] == needle && placeholder[0] !in needle;
  }

  // ---- the whole map ----

  function Rendered(value: string, against: seq<Substitution>): string {
    if against == [] then value
    else
      var last := against[|against| - 1];
      ReplaceAll(Rendered(value, against[..|against| - 1]), last.needle, last.placeholder)
  }

  method Render(value: string, against: seq<Substitution>) returns (result: string)
    ensures result == Rendered(value, against)
    ensures SafeMap(against) ==> Clean(result, against)
  {
    result := value;
    for k := 0 to |against|
      invariant result == Rendered(value, against[..k])
    {
      assert against[..k + 1][..k] == against[..k];
      result := ReplaceAll(result, against[k].needle, against[k].placeholder);
    }
    assert against[..|against|] == against;
    if SafeMap(against) {
      RenderedIsClean(value, against);
    }
  }

  lemma SafePrefix(against: seq<Substitution>, k: nat)
    requires SafeMap(against) && k <= |against|
    ensures SafeMap(against[..k])
  {
    var front := against[..k];
    forall j, m | 0 <= j < k && 0 <= m < k ensures !Occurs(front[j].needle, front[m].placeholder) {
      assert front[j] == against[j] && front[m] == against[m];
    }
  }

  lemma SafeNeedleNonEmpty(against: seq<Substitution>, k: nat)
    requires SafeMap(against) && k < |against|
    ensures against[k].needle != ""
  {
    EmptyOccurs(against[k].placeholder);
  }

  /** No needle of a safe map is left anywhere in the rendered text, however the
      needles contain or overlap each other and in whatever order they go. */
  lemma {:induction false} RenderedIsClean(value: string, against: seq<Substitution>)
    requires SafeMap(against)
    ensures Clean(Rendered(value, against), against)
    decreases |against|
  {
    if against != [] {
      var n := |against| - 1;
      var front, last := against[..n], against[n];
      SafePrefix(against, n);
      SafeNeedleNonEmpty(against, n);
      RenderedIsClean(value, front);
      var before := Rendered(value, front);
      ReplacedIsGone(before, last.needle, last.placeholder);
      forall k | 0 <= k < n ensures !Occurs(against[k].needle, Rendered(value, against)) {
        assert front[k] == against[k];
        if Occurs(against[k].needle, Rendered(value, against)) {
          NoNewOccurrence(against[k].needle, before, last.needle, last.placeholder);
        }
      }
    }
  }

  lemma {:induction false} CleanIsFixed(value: string, against: seq<Substitution>)
    requires Clean(value, against)
    ensures Rendered(value, against) == value
    decreases |against|
  {
    if against != [] {
      var n := |against| - 1;
      assert forall k :: 0 <= k < n ==> against[..n][k] == against[k];
      CleanIsFixed(value, against[..n]);
      AbsentIsUntouched(value, against[n].needle, against[n].placeholder);
    }
  }

  /** A second pass changes nothing. */
  lemma RenderIsIdempotent(value: string, against: seq<Substitution>)
    requires SafeMap(against)
    ensures Rendered(Rendered(value, against), against) == Rendered(value, against)
  {
    RenderedIsClean(value, against);
    CleanIsFixed(Rendered(value, against), against);
  }

  // ---- the order of the map ----

  predicate LongestFirst(pairs: seq<Substitution>) {
    forall j, k :: 0 <= j < k < |pairs| ==> |pairs[j].needle| >= |pairs[k].needle|
  }

  function Insert(x: Substitution, sorted: seq<Substitution>): (r: seq<Substitution>)
    ensures multiset(r) == multiset(sorted) + multiset{x}
  {
    if sorted == [] || |x.needle| >= |sorted[0].needle| then [x] + sorted
    else
      assert sorted == [sorted[0]] + sorted[1..];
      [sorted[0]] + Insert(x, sorted[1..])
  }

  /** `sorted(..., key=len, reverse=True)`: stable, longest needle first. */
  function Substitutions(pairs: seq<Substitution>): (r: seq<Substitution>)
    ensures multiset(r) == multiset(pairs)
  {
    if pairs == [] then []
    else
      assert pairs == [pairs[0]] + pairs[1..];
      Insert(pairs[0], Substitutions(pairs[1..]))
  }

  lemma {:induction false} InsertKeepsOrder(x: Substitution, sorted: seq<Substitution>, bound: nat)
    requires LongestFirst(sorted)
    requires |x.needle| <= bound && forall k :: 0 <= k < |sorted| ==> |sorted[k].needle| <= bound
    ensures LongestFirst(Insert(x, sorted))
    ensures forall k :: 0 <= k < |Insert(x, sorted)| ==> |Insert(x, sorted)[k].needle| <= bound
    decreases |sorted|
  {
    if sorted != [] && |x.needle| < |sorted[0].needle| {
      InsertKeepsOrder(x, sorted[1..], |sorted[0].needle|);
    }
  }

  lemma {:induction false} SubstitutionsLongestFirst(pairs: seq<Substitution>)
    ensures LongestFirst(Substitutions(pairs))
  {
    if pairs != [] {
      SubstitutionsLongestFirst(pairs[1..]);
      var rest := Substitutions(pairs[1..]);
      InsertKeepsOrder(pairs[0], rest, if rest == [] then |pairs[0].needle| else |pairs[0].needle| + |rest[0].needle|);
    }
  }

  /** The pairs whose needle has a given length, in order. */
  function OfLength(pairs: seq<Substitution>, n: nat): seq<Substitution> {
    if pairs == [] then []
    else (if |pairs[0].needle| == n then [pairs[0]] else []) + OfLength(pairs[1..], n)
  }

  lemma OfLengthCons(x: Substitution, rest: seq<Substitution>, n: nat)
    ensures OfLength([x] + rest, n) == (if |x.needle| == n then [x] else []) + OfLength(rest, n)
  {
    assert ([x] + rest)[1..] == rest;
  }

  lemma {:induction false} InsertIsStable(x: Substitution, sorted: seq<Substitution>, n: nat)
    ensures OfLength(Insert(x, sorted), n) == (if |x.needle| == n then [x] else []) + OfLength(sorted, n)
    decreases |sorted|
  {
    if sorted == [] || |x.needle| >= |sorted[0].needle| {
      OfLengthCons(x, sorted, n);
    } else {
      InsertIsStable(x, sorted[1..], n);
      OfLengthCons(sorted[0], Insert(x, sorted[1..]), n);
    }
  }

  /** Needles of one length keep the order they were found in. */
  lemma {:induction false} SubstitutionsStable(pairs: seq<Substitution>, n: nat)
    ensures OfLength(Substitutions(pairs), n) == OfLength(pairs, n)
  {
    if pairs != [] {
      SubstitutionsStable(pairs[1..], n);
      InsertIsStable(pairs[0], Substitutions(pairs[1..]), n);
    }
  }

  lemma TooLongToOccur(probe: string, text: string)
    requires |probe| >= |text| && probe != text
    ensures !Occurs(probe, text)
  {
    assert text[0..|text|] == text;
    assert !OccursAt(probe, text, 0);
  }

  /** Longest first, a text that is one needle becomes that needle's placeholder,
      whatever shorter needles it contains. */
  lemma NeedleBecomesItsPlaceholder(against: seq<Substitution>, k: nat)
    requires SafeMap(against) && LongestFirst(against) && k < |against|
    requires forall j :: 0 <= j < k ==> against[j].needle != against[k].needle
    ensures Rendered(against[k].needle, against) == against[k].placeholder
  {
    var needle := against[k].needle;
    SafeNeedleNonEmpty(against, k);
    var front := against[..k];
    forall j | 0 <= j < k ensures !Occurs(front[j].needle, needle) {
      TooLongToOccur(front[j].needle, needle);
    }
    CleanIsFixed(needle, front);
    assert against[..k + 1][..k] == front;
    NeedleAlone(needle, against[k].placeholder);
    assert Rendered(needle, against[..k + 1]) == against[k].placeholder;
    PlaceholderStays(needle, against, k, |against|);
    assert against[..|against|] == against;
  }

  lemma {:induction false} PlaceholderStays(value: string, against: seq<Substitution>, k: nat, n: nat)
    requires SafeMap(against) && k < n <= |against|
    requires Rendered(value, against[..k + 1]) == against[k].placeholder
    ensures Rendered(value, against[..n]) == against[k].placeholder
    decreases n
  {
    if n > k + 1 {
      PlaceholderStays(value, against, k, n - 1);
      assert against[..n][..n - 1] == against[..n - 1];
      AbsentIsUntouched(against[k].placeholder, against[n - 1].needle, against[n - 1].placeholder);
    }
  }

  /** Shortest first, a checkout inside the home directory is torn apart and its
      own placeholder never appears. */
  lemma ShortestFirstTearsNeedle(home: string, checkout: string, short: Substitution, long: Substitution)
    requires checkout != "" && !Occurs(home, checkout)
    requires short.needle == home && long.needle == home + checkout && SafeMap([short, long])
    ensures Rendered(long.needle, [short, long]) == short.placeholder + checkout
  {
    var whole, torn := home + checkout, short.placeholder + checkout;
    assert [short, long][0] == short && [short, long][1] == long;
    SafeNeedleNonEmpty([short, long], 0);
    assert whole[..|home|] == home && whole[|home|..] == checkout;
    AbsentIsUntouched(checkout, home, short.placeholder);
    assert [short, long][..1] == [short] && [short][..0] == [];
    assert Rendered(whole, []) == whole && Rendered(whole, [short]) == torn;
    forall i | 0 <= i <= |torn| ensures !OccursAt(whole, torn, i) {
      if OccursAt(whole, torn, i) {
        BehindPlaceholder(whole, short.placeholder, checkout, i);
      }
    }
    AbsentIsUntouched(torn, whole, long.placeholder);
  }

  lemma LongestFirstKeepsNeedle(home: string, checkout: string, short: Substitution, long: Substitution)
    requires checkout != ""
    requires short.needle == home && long.needle == home + checkout && SafeMap([short, long])
    ensures Rendered(long.needle, Substitutions([short, long])) == long.placeholder
  {
    assert [short, long][0] == short && [short, long][1] == long;
    assert [short, long][1..] == [long] && [long][1..] == [];
    assert Substitutions([]) == [] && Substitutions([long]) == Insert(long, []) == [long];
    assert Insert(short, []) == [short];
    assert Substitutions([short, long]) == [long, short];
    assert SafeMap([long, short]);
    NeedleBecomesItsPlaceholder([long, short], 0);
  }
}
