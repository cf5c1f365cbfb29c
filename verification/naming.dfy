/** Turning remote titles into file-system names (`title_to_filename`) and
    telling repeated names apart (`make_unique_names`). */
module Naming {
  import opened Text
  import opened Decimal

  const MaxNameLength: nat := 200
  const FallbackName: string := "no_name"

  /** Characters that become an underscore. */
  const UnderscoreChars: string := "\\/<>|?*"

  /** Characters no sanitised name contains. */
  predicate IsForbidden(c: char)
  {
    c in UnderscoreChars || c == ':' || c == '"'
  }

  /** No character of `s` is forbidden. */
  predicate IsSafe(s: string)
  {
    forall c :: c in s ==> !IsForbidden(c)
  }

  /** Python's `str.isspace`, the set `str.strip()` removes without arguments. */
  predicate IsWhitespace(c: char)
  {
    || ('\t' <= c <= '\r')
    || ('\U{1C}' <= c <= '\U{1F}')
    || c == ' ' || c == '\U{85}' || c == '\U{A0}' || c == '\U{1680}'
    || ('\U{2000}' <= c <= '\U{200A}')
    || c == '\U{2028}' || c == '\U{2029}' || c == '\U{202F}' || c == '\U{205F}' || c == '\U{3000}'
  }

  predicate IsPeriod(c: char)
  {
    c == '.'
  }

  /** One character of the title, as the generator in `title_to_filename`
      rewrites it. `printable` stands for `str.isprintable`. */
  function SanitizeChar(c: char, printable: char -> bool): char
  {
    if !printable(c) then ' '
    else if c in UnderscoreChars then '_'
    else if c == ':' then '-'
    else if c == '"' then '\''
    else c
  }

  /** The title rewritten character by character: same length, no forbidden
      character, and each position rewritten by its own rule. */
  function SanitizeChars(title: string, printable: char -> bool): (s: string)
    ensures |s| == |title|
    ensures IsSafe(s)
    ensures forall k :: 0 <= k < |s| && !printable(title[k]) ==> s[k] == ' '
    ensures forall k :: 0 <= k < |s| && printable(title[k]) && title[k] in UnderscoreChars ==> s[k] == '_'
    ensures forall k :: 0 <= k < |s| && printable(title[k]) && title[k] == ':' ==> s[k] == '-'
    ensures forall k :: 0 <= k < |s| && printable(title[k]) && title[k] == '"' ==> s[k] == '\''
    ensures forall k :: 0 <= k < |s| && printable(title[k]) && !IsForbidden(title[k]) ==> s[k] == title[k]
  {
    seq(|title|, k requires 0 <= k < |title| => SanitizeChar(title[k], printable))
  }

  /** The sanitised title with surrounding whitespace, then surrounding periods,
      stripped: `s.strip().strip('.')`. */
  function Clean(title: string, printable: char -> bool): (s: string)
    ensures IsSafe(s)
    ensures |s| <= |title|
    ensures |s| > 0 ==> !IsPeriod(s[0]) && !IsPeriod(s[|s| - 1])
    ensures var sanitized := SanitizeChars(title, printable);
            forall k :: 0 <= k < |title| && !IsWhitespace(sanitized[k]) && !IsPeriod(sanitized[k]) ==> sanitized[k] in s
    ensures exists t :: StripsTo(SanitizeChars(title, printable), t, IsWhitespace) && StripsTo(t, s, IsPeriod)
  {
    var sanitized := SanitizeChars(title, printable);
    var trimmed := Strip(sanitized, IsWhitespace);
    var r := Strip(trimmed, IsPeriod);
    StripKeeps(sanitized, trimmed, IsWhitespace);
    StripKeeps(trimmed, r, IsPeriod);
    StripShorter(sanitized, trimmed, IsWhitespace);
    StripShorter(trimmed, r, IsPeriod);
    StripEnds(trimmed, r, IsPeriod);
    assert StripsTo(sanitized, trimmed, IsWhitespace) && StripsTo(trimmed, r, IsPeriod);
    r
  }

  /** `title_to_filename`: never empty, at most 200 characters, free of the
      characters file systems reject; the cleaned title cut to 200 characters,
      or `no_name` when nothing is left. */
  function TitleToFilename(title: string, printable: char -> bool): (name: string)
    ensures 0 < |name| <= MaxNameLength
    ensures IsSafe(name)
    ensures Clean(title, printable) == [] ==> name == FallbackName
    ensures Clean(title, printable) != [] ==>
              StartsWith(Clean(title, printable), name) && |name| == Min(|Clean(title, printable)|, MaxNameLength)
  {
    var cleaned := Clean(title, printable);
    var cut := cleaned[..Min(|cleaned|, MaxNameLength)];
    CutIsSafePrefix(cleaned, cut);
    FallbackIsSafe();
    if cut == [] then FallbackName else cut
  }

  lemma CutIsSafePrefix(cleaned: string, cut: string)
    requires IsSafe(cleaned) && cut == cleaned[..Min(|cleaned|, MaxNameLength)]
    ensures IsSafe(cut) && StartsWith(cleaned, cut) && |cut| == Min(|cleaned|, MaxNameLength)
  {
    assert forall k :: 0 <= k < |cut| ==> cut[k] == cleaned[k];
  }

  lemma FallbackIsSafe()
    ensures IsSafe(FallbackName)
  {
    assert FallbackName == ['n', 'o', '_', 'n', 'a', 'm', 'e'];
  }

  // ---------------------------------------------------------------------------
  // Duplicate suffixes

  /** The tag of the `counter`-th repeated occurrence: `_001`, `_002`, ... */
  function CounterTag(counter: nat): (tag: string)
    ensures |tag| >= 4 && tag[0] == '_'
    ensures '.' !in tag
  {
    "_" + Pad3(counter)
  }

  /** The name a repeated occurrence gets. Without extensions the tag is
      appended; with extensions the name is split at dots, the tag is appended
      to the second-to-last segment (the only one when there is no dot), and the
      segments are joined again. */
  function WithCounter(name: string, counter: nat, hasExtension: bool): string
  {
    if hasExtension then TagSegment(name, CounterTag(counter)) else name + CounterTag(counter)
  }

  /** `s = name.split('.')`, then `s[-2:][0] += tag`, then `'.'.join(s)`:
      the tag ends up just before the last dot, or at the end when there is no
      dot. So `photo.jpg` gets `photo_001.jpg` and `a.tar.gz` gets
      `a.tar_001.gz`. */
  function TagSegment(name: string, tag: string): string
  {
    var segments := Split(name, '.');
    var cut := if |segments| >= 2 then |segments| - 2 else 0;
    var kept := segments[cut..];
    Join(segments[..cut] + [kept[0] + tag] + kept[1..], '.')
  }

  /** The tag inserted just before the last dot, or appended when there is none. */
  function InsertBeforeLastDot(name: string, tag: string): string
  {
    var d := LastIndexOf(name, '.');
    if d < 0 then name + tag else name[..d] + tag + name[d..]
  }

  /** Tagging lengthens a name by exactly the tag, with or without
      extensions, so a tagged name always differs from the name. */
  lemma WithCounterLength(name: string, counter: nat, hasExtension: bool)
    ensures |WithCounter(name, counter, hasExtension)| == |name| + |CounterTag(counter)|
  {
    CounterGoesBeforeLastDot(name, counter);
  }

  /** With extensions, the counter goes just before the last dot, or at the
      end of a name without a dot. */
  lemma CounterGoesBeforeLastDot(name: string, counter: nat)
    ensures WithCounter(name, counter, true) == InsertBeforeLastDot(name, CounterTag(counter))
  {
    TagGoesBeforeLastDot(name, CounterTag(counter));
  }

  /** Splitting at dots, extending the second-to-last segment (the only one
      when there is no dot) and joining again inserts the tag just before the
      last dot. */
  lemma TagGoesBeforeLastDot(name: string, tag: string)
    ensures var segments := Split(name, '.');
            var cut := if |segments| >= 2 then |segments| - 2 else 0;
            Join(segments[..cut] + [segments[cut..][0] + tag] + segments[cut..][1..], '.')
              == InsertBeforeLastDot(name, tag)
  {
    var segments := Split(name, '.');
    var n := |segments|;
    var cut := if n >= 2 then n - 2 else 0;
    var tagged := segments[..cut] + [segments[cut..][0] + tag] + segments[cut..][1..];
    if n == 1 {
      assert tagged == [name + tag];
    } else {
      var front, x, y := segments[..n - 2], segments[n - 2], segments[n - 1];
      assert segments == front + [x] + [y];
      assert tagged == front + [x + tag] + [y];
      TagBeforeLastSegment(front, x, y, tag);
    }
  }

  lemma TagBeforeLastSegment(front: seq<string>, x: string, y: string, tag: string)
    requires '.' !in y
    ensures Join(front + [x + tag] + [y], '.') == InsertBeforeLastDot(Join(front + [x] + [y], '.'), tag)
  {
    var head := Join(front + [x], '.');
    JoinTagged(front, x, y, tag);
    JoinSnoc(front + [x], y, '.');
    InsertBeforeFinalDot(head, y, tag);
  }

  lemma InsertBeforeFinalDot(head: string, tail: string, tag: string)
    requires '.' !in tail
    ensures InsertBeforeLastDot(head + ['.'] + tail, tag) == head + tag + ['.'] + tail
  {
    var name := head + ['.'] + tail;
    LastIndexOfSplit(head, '.', tail);
    assert name[..|head|] == head;
    assert name[|head|..] == ['.'] + tail;
  }

  lemma JoinTagged(front: seq<string>, x: string, y: string, tag: string)
    ensures Join(front + [x + tag] + [y], '.') == Join(front + [x], '.') + tag + ['.'] + y
  {
    JoinSnoc(front + [x + tag], y, '.');
    if |front| > 0 {
      JoinSnoc(front, x + tag, '.');
      JoinSnoc(front, x, '.');
    } else {
      assert front + [x + tag] == [x + tag];
      assert front + [x] == [x];
    }
  }

  /** Seen as dot-separated segments, tagging extends the second-to-last segment
      (or the only one) and keeps every other segment as it was. */
  lemma CounterKeepsOtherSegments(name: string, counter: nat)
    ensures var segments := Split(name, '.');
            var cut := if |segments| >= 2 then |segments| - 2 else 0;
            Split(WithCounter(name, counter, true), '.')
              == segments[..cut] + [segments[cut] + CounterTag(counter)] + segments[cut + 1..]
  {
    var tag := CounterTag(counter);
    var segments := Split(name, '.');
    var cut := if |segments| >= 2 then |segments| - 2 else 0;
    var tagged := segments[..cut] + [segments[cut] + tag] + segments[cut + 1..];
    assert segments[cut..][0] == segments[cut] && segments[cut..][1..] == segments[cut + 1..];
    assert WithCounter(name, counter, true) == Join(tagged, '.');
    TaggedSegmentsSplit(segments, cut, tag);
  }

  /** Extending one dot-free segment by a dot-free tag keeps the segments
      apart: splitting the join gives the extended segments back. */
  lemma TaggedSegmentsSplit(segments: seq<string>, cut: nat, tag: string)
    requires cut < |segments| && '.' !in tag
    requires forall k :: 0 <= k < |segments| ==> '.' !in segments[k]
    ensures var tagged := segments[..cut] + [segments[cut] + tag] + segments[cut + 1..];
            Split(Join(tagged, '.'), '.') == tagged
  {
    var tagged := segments[..cut] + [segments[cut] + tag] + segments[cut + 1..];
    forall k | 0 <= k < |tagged|
      ensures '.' !in tagged[k]
    {
      if k != cut {
        assert tagged[k] == segments[k];
      }
    }
    SplitJoin(tagged, '.');
  }

  lemma MiddleCancel(p: string, x: string, y: string, q: string)
    requires p + x + q == p + y + q
    ensures x == y
  {
    assert |x| == |y|;
    assert (p + x + q)[|p|..|p| + |x|] == x;
    assert (p + y + q)[|p|..|p| + |y|] == y;
  }

  /** Different counters never produce the same name. */
  lemma WithCounterInjective(name: string, a: nat, b: nat, hasExtension: bool)
    ensures WithCounter(name, a, hasExtension) == WithCounter(name, b, hasExtension) ==> a == b
  {
    var ta, tb := CounterTag(a), CounterTag(b);
    if WithCounter(name, a, hasExtension) == WithCounter(name, b, hasExtension) {
      if hasExtension {
        CounterGoesBeforeLastDot(name, a);
        CounterGoesBeforeLastDot(name, b);
        var d := LastIndexOf(name, '.');
        if d < 0 {
          MiddleCancel(name, ta, tb, "");
        } else {
          MiddleCancel(name[..d], ta, tb, name[d..]);
        }
      } else {
        MiddleCancel(name, ta, tb, "");
      }
      assert Pad3(a) == ta[1..] == tb[1..] == Pad3(b);
      Pad3Injective(a, b);
    }
  }

  // ---------------------------------------------------------------------------
  // make_unique_names

  /** How often `name` occurs in `names` (`Counter(names)[name]`). */
  function Occurrences(names: seq<string>, name: string): nat
  {
    multiset(names)[name]
  }

  /** The name position `i` receives, stated from occurrence counts: a name that
      occurs once is kept; the k-th occurrence (from the left) of a repeated
      name carries counter k. */
  function UniqueName(names: seq<string>, i: nat, hasExtension: bool): string
    requires i < |names|
  {
    if Occurrences(names, names[i]) > 1 then
      WithCounter(names[i], Occurrences(names[..i], names[i]) + 1, hasExtension)
    else
      names[i]
  }

  /** The `suffix` dictionary while the loop is at position `i`: it holds exactly
      the repeated names, each with one more than its occurrences so far. */
  ghost predicate CountersAt(names: seq<string>, i: nat, counters: map<string, nat>)
    requires i <= |names|
  {
    && (forall name :: name in counters <==> Occurrences(names, name) > 1)
    && (forall name :: name in counters ==> counters[name] == Occurrences(names[..i], name) + 1)
  }

  /** The loop of `make_unique_names` from position `i` on. */
  function RenameFrom(names: seq<string>, i: nat, counters: map<string, nat>, hasExtension: bool): (r: seq<string>)
    requires i <= |names|
    requires CountersAt(names, i, counters)
    ensures |r| == |names| - i
    ensures forall k :: 0 <= k < |r| ==> r[k] == UniqueName(names, i + k, hasExtension)
    decreases |names| - i
  {
    if i == |names| then []
    else
      CountersAdvance(names, i, counters, hasExtension);
      var head := Emitted(names[i], counters, hasExtension);
      var rest := RenameFrom(names, i + 1, Advanced(names[i], counters), hasExtension);
      PrependUniqueName(names, i, head, rest, hasExtension);
      [head] + rest
  }

  /** The name the loop appends for `name`. */
  function Emitted(name: string, counters: map<string, nat>, hasExtension: bool): string
  {
    if name in counters then WithCounter(name, counters[name], hasExtension) else name
  }

  /** The `suffix` dictionary after the loop has passed `name`. */
  function Advanced(name: string, counters: map<string, nat>): map<string, nat>
  {
    if name in counters then counters[name := counters[name] + 1] else counters
  }

  lemma PrependUniqueName(names: seq<string>, i: nat, head: string, rest: seq<string>, hasExtension: bool)
    requires i < |names| && |rest| == |names| - i - 1
    requires head == UniqueName(names, i, hasExtension)
    requires forall k :: 0 <= k < |rest| ==> rest[k] == UniqueName(names, i + 1 + k, hasExtension)
    ensures forall k :: 0 <= k < |rest| + 1 ==> ([head] + rest)[k] == UniqueName(names, i + k, hasExtension)
  {
    forall k | 0 <= k < |rest| + 1
      ensures ([head] + rest)[k] == UniqueName(names, i + k, hasExtension)
    {
      if k > 0 {
        assert ([head] + rest)[k] == rest[k - 1];
      }
    }
  }

  /** One step of the loop: the name it emits is the one `UniqueName` states,
      and the `suffix` dictionary stays in step with the occurrences seen. */
  lemma CountersAdvance(names: seq<string>, i: nat, counters: map<string, nat>, hasExtension: bool)
    requires i < |names| && CountersAt(names, i, counters)
    ensures CountersAt(names, i + 1, Advanced(names[i], counters))
    ensures Emitted(names[i], counters, hasExtension) == UniqueName(names, i, hasExtension)
  {
    assert names[..i + 1] == names[..i] + [names[i]];
  }

  /** `make_unique_names`: one name per input, a name that occurs once kept in
      place, and the k-th occurrence of a repeated name tagged with counter k.
      When nothing repeats, the input comes back as it was. */
  function MakeUniqueNames(names: seq<string>, hasExtension: bool): (r: seq<string>)
    ensures |r| == |names|
    ensures forall i :: 0 <= i < |names| ==> r[i] == UniqueName(names, i, hasExtension)
    ensures forall i :: 0 <= i < |names| && Occurrences(names, names[i]) == 1 ==> r[i] == names[i]
    ensures (forall i :: 0 <= i < |names| ==> Occurrences(names, names[i]) == 1) ==> r == names
  {
    var counters := map name | name in names && Occurrences(names, name) > 1 :: 1;
    if counters == map[] then
      assert forall i :: 0 <= i < |names| ==> names[i] !in counters;
      names
    else
      assert names[..0] == [];
      RenameFrom(names, 0, counters, hasExtension)
  }

  /** Two occurrences of the same repeated name never end up with the same
      name. */
  lemma RepeatedOccurrencesDiffer(names: seq<string>, hasExtension: bool, i: nat, j: nat)
    requires i < j < |names| && names[i] == names[j]
    ensures MakeUniqueNames(names, hasExtension)[i] != MakeUniqueNames(names, hasExtension)[j]
  {
    var r := MakeUniqueNames(names, hasExtension);
    UniqueNamesDiffer(names, hasExtension, i, j, r[i], r[j]);
  }

  lemma UniqueNamesDiffer(names: seq<string>, hasExtension: bool, i: nat, j: nat, a: string, b: string)
    requires i < j < |names| && names[i] == names[j]
    requires a == UniqueName(names, i, hasExtension) && b == UniqueName(names, j, hasExtension)
    ensures a != b
  {
    LaterOccurrenceCountsMore(names, i, j);
    UniqueNameTagged(names, i, hasExtension, a);
    UniqueNameTagged(names, j, hasExtension, b);
    DistinctCounters(names[i], Occurrences(names[..i], names[i]) + 1, Occurrences(names[..j], names[i]) + 1, hasExtension, a, b);
  }

  lemma UniqueNameTagged(names: seq<string>, i: nat, hasExtension: bool, a: string)
    requires i < |names| && Occurrences(names, names[i]) > 1 && a == UniqueName(names, i, hasExtension)
    ensures a == WithCounter(names[i], Occurrences(names[..i], names[i]) + 1, hasExtension)
  {
  }

  lemma DistinctCounters(name: string, ca: nat, cb: nat, hasExtension: bool, a: string, b: string)
    requires ca < cb && a == WithCounter(name, ca, hasExtension) && b == WithCounter(name, cb, hasExtension)
    ensures a != b
  {
    WithCounterInjective(name, ca, cb, hasExtension);
  }

  /** A later occurrence of a name has seen more of it before itself. */
  lemma LaterOccurrenceCountsMore(names: seq<string>, i: nat, j: nat)
    requires i < j < |names| && names[i] == names[j]
    ensures Occurrences(names, names[i]) >= 2
    ensures Occurrences(names[..j], names[i]) >= Occurrences(names[..i], names[i]) + 1
  {
    var name := names[i];
    assert names == names[..j] + names[j..];
    assert names[..j] == names[..i] + names[i..j];
    assert names[i..j][0] == name && names[j..][0] == name;
  }

  /** A name that is repeated is always renamed. */
  lemma RepeatedNamesAreRenamed(names: seq<string>, hasExtension: bool, i: nat)
    requires i < |names| && Occurrences(names, names[i]) > 1
    ensures MakeUniqueNames(names, hasExtension)[i] != names[i]
  {
    var counter := Occurrences(names[..i], names[i]) + 1;
    WithCounterLength(names[i], counter, hasExtension);
  }

  /** A name listed twice gets counters 1 and 2. */
  lemma RenamedTwice(names: seq<string>, name: string, hasExtension: bool)
    requires names == [name, name]
    ensures MakeUniqueNames(names, hasExtension) == [WithCounter(name, 1, hasExtension), WithCounter(name, 2, hasExtension)]
  {
    PairRenamed(names, name, hasExtension, MakeUniqueNames(names, hasExtension));
  }

  lemma PairRenamed(names: seq<string>, name: string, hasExtension: bool, r: seq<string>)
    requires names == [name, name]
    requires |r| == 2 && forall i :: 0 <= i < 2 ==> r[i] == UniqueName(names, i, hasExtension)
    ensures r == [WithCounter(name, 1, hasExtension), WithCounter(name, 2, hasExtension)]
  {
    assert multiset(names) == multiset{name, name};
    assert names[..0] == [] && names[..1] == [name];
    assert r[0] == UniqueName(names, 0, hasExtension) && r[1] == UniqueName(names, 1, hasExtension);
  }

  /** A name listed twice, followed by a different name that occurs once. */
  lemma RenamedTwiceThenOther(names: seq<string>, name: string, other: string)
    requires names == [name, name, other] && other != name
    ensures MakeUniqueNames(names, false) == [WithCounter(name, 1, false), WithCounter(name, 2, false), other]
  {
    TripleRenamed(names, name, other, MakeUniqueNames(names, false));
  }

  lemma TripleRenamed(names: seq<string>, name: string, other: string, r: seq<string>)
    requires names == [name, name, other] && other != name
    requires |r| == 3 && forall i :: 0 <= i < 3 ==> r[i] == UniqueName(names, i, false)
    ensures r == [WithCounter(name, 1, false), WithCounter(name, 2, false), other]
  {
    assert multiset(names) == multiset{name, name, other};
    assert names[..0] == [] && names[..1] == [name];
    assert r[0] == UniqueName(names, 0, false) && r[1] == UniqueName(names, 1, false);
    assert r[2] == UniqueName(names, 2, false);
  }

  /** The counter can collide with a name that was already in the list, so
      the results are not unique across different names: `["a", "a", "a_001"]`
      becomes `["a_001", "a_002", "a_001"]`. */
  lemma RenamedCanCollide(names: seq<string>)
    requires names == ["a", "a", "a_001"]
    ensures MakeUniqueNames(names, false) == ["a_001", "a_002", "a_001"]
  {
    CounterTagExamples();
    assert WithCounter("a", 1, false) == "a" + CounterTag(1) == "a_001";
    assert WithCounter("a", 2, false) == "a" + CounterTag(2) == "a_002";
    RenamedTwiceThenOther(names, "a", "a_001");
  }

  /** With extensions too, a counter can meet a name already listed: a dotless
      `b` listed twice before `b_001` gives `b_001` at the first and the third
      position. */
  lemma TaggedMeetsListed(names: seq<string>, b: string)
    requires '.' !in b && names == [b, b, b + CounterTag(1)]
    ensures UniqueName(names, 0, true) == b + CounterTag(1)
    ensures UniqueName(names, 2, true) == b + CounterTag(1)
  {
    var other := b + CounterTag(1);
    assert other != b by {
      assert |other| > |b|;
    }
    assert multiset(names) == multiset{b, b, other};
    assert names[..0] == [];
    DotlessTaggedAtEnd(b, 1);
  }

  /** Two identical names without extensions: `party_001`, `party_002`. */
  lemma PlainRepeatExample(names: seq<string>)
    requires names == ["party", "party"]
    ensures MakeUniqueNames(names, false) == ["party_001", "party_002"]
  {
    CounterTagExamples();
    assert WithCounter("party", 1, false) == "party" + CounterTag(1) == "party_001";
    assert WithCounter("party", 2, false) == "party" + CounterTag(2) == "party_002";
    RenamedTwice(names, "party", false);
  }

  /** Two identical names with extensions are tagged before their last dot:
      `photo.jpg` twice gives `photo_001.jpg` and `photo_002.jpg`. */
  lemma ExtensionRepeatExample(names: seq<string>, name: string, head: string, tail: string)
    requires '.' !in tail && name == head + "." + tail && names == [name, name]
    ensures MakeUniqueNames(names, true) == [head + "_001." + tail, head + "_002." + tail]
  {
    RenamedTwice(names, name, true);
    FirstCounterBeforeDot(name, head, tail);
    SecondCounterBeforeDot(name, head, tail);
  }

  lemma FirstCounterBeforeDot(name: string, head: string, tail: string)
    requires '.' !in tail && name == head + "." + tail
    ensures WithCounter(name, 1, true) == head + "_001." + tail
  {
    TaggedBeforeDot(name, 1, head, tail);
    Pad3One();
    assert head + "_001" + "." + tail == head + "_001." + tail;
  }

  lemma SecondCounterBeforeDot(name: string, head: string, tail: string)
    requires '.' !in tail && name == head + "." + tail
    ensures WithCounter(name, 2, true) == head + "_002." + tail
  {
    TaggedBeforeDot(name, 2, head, tail);
    Pad3Two();
    assert head + "_002" + "." + tail == head + "_002." + tail;
  }

  /** A compound extension keeps its last segment only: `a.tar.gz` becomes
      `a.tar_001.gz`. */
  lemma CompoundExtensionExample(name: string, head: string, tail: string)
    requires head == "a.tar" && tail == "gz" && name == head + "." + tail
    ensures WithCounter(name, 1, true) == head + "_001." + tail
  {
    assert '.' !in tail;
    FirstCounterBeforeDot(name, head, tail);
  }

  /** With extensions, a name without a dot is tagged at its end, as it would
      be without. */
  lemma DotlessTaggedAtEnd(name: string, counter: nat)
    requires '.' !in name
    ensures WithCounter(name, counter, true) == WithCounter(name, counter, false)
  {
    CounterGoesBeforeLastDot(name, counter);
  }

  /** With extensions, a dotless `party` is tagged `party_001`. */
  lemma DotlessExample(name: string)
    requires name == "party"
    ensures WithCounter(name, 1, true) == "party_001"
  {
    CounterTagExamples();
    assert WithCounter(name, 1, false) == name + CounterTag(1) == "party_001";
    DotlessTaggedAtEnd(name, 1);
  }

  /** A name with a final dot-free segment `tail` gets the tag just before it. */
  lemma TaggedBeforeDot(name: string, counter: nat, head: string, tail: string)
    requires '.' !in tail && name == head + "." + tail
    ensures WithCounter(name, counter, true) == head + CounterTag(counter) + "." + tail
  {
    CounterGoesBeforeLastDot(name, counter);
    InsertBeforeFinalDot(head, tail, CounterTag(counter));
  }

  lemma CounterTagExamples()
    ensures CounterTag(1) == "_001" && CounterTag(2) == "_002"
  {
    Pad3One();
    Pad3Two();
  }
}
