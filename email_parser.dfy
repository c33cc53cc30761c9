/**
 * `parse_email`: one raw Enron message text becomes a record holding fifteen
 * header values and a body.
 *
 * For each header name `Name` the source runs `re.search(r'Name:\s*(.*)')`
 * over the whole text. The search is literal and case-sensitive, it is not
 * anchored to a line start, and it is not limited to the header block. The
 * pattern matches wherever the literal `Name:` occurs, because `\s*` and
 * `(.*)` may both match the empty string. So the match sits at the leftmost
 * occurrence of `Name:`. The greedy `\s*` then swallows all whitespace,
 * line breaks included. The group `(.*)` runs to the next line break, since
 * `.` never matches `\n`. The group is stripped.
 *
 * The body is what follows the first `"\n\n"`, stripped, and is `None` when
 * the text has no such separator.
 */
module EmailParser {
  import opened Wrappers
  import opened Text

  /** The header table, in the order the source declares it. */
  const HeaderNames: seq<string> := [
    "Message-ID", "Date", "From", "To", "Subject", "Mime-Version",
    "Content-Type", "Content-Transfer-Encoding", "X-From", "X-To",
    "X-cc", "X-bcc", "X-Folder", "X-Origin", "X-FileName"
  ]

  const BodyKey: string := "Body"

  /** The blank-line separator between the header block and the body. */
  const Separator: string := "\n\n"

  /** A parsed message: column name to value, `None` for a missing value. */
  type Record = map<string, Option<string>>

  /** The literal that starts the pattern for header `name`. */
  function Label(name: string): string
  {
    name + ":"
  }

  /**
   * The regular expression `Name:\s*(.*)` matches at `k`, with group 1 being
   * `content[g0..g1]`: the literal sits at `k`, greedy `\s*` covers
   * `content[k + |Name:|..g0]` and stops at a non-space or the end, and greedy
   * `(.*)` covers `content[g0..g1]` and stops at a line break or the end.
   */
  ghost predicate GreedyMatch(content: string, lit: string, k: nat, g0: nat, g1: nat)
  {
    OccursAt(content, lit, k) && GreedyGroup(content, k + |lit|, g0, g1)
  }

  /**
   * From position `i` on, greedy `\s*` covers `content[i..g0]` and greedy
   * `(.*)` covers `content[g0..g1]`.
   */
  ghost predicate GreedyGroup(content: string, i: nat, g0: nat, g1: nat)
  {
    && i <= g0 <= g1 <= |content|
    && AllSpaceIn(content, i, g0)
    && (g0 == |content| || !IsSpace(content[g0]))
    && (forall j :: g0 <= j < g1 ==> content[j] != '\n')
    && (g1 == |content| || content[g1] == '\n')
  }

  /** Group 1 of `\s*(.*)` matched from position `i`, stripped. */
  function GroupValue(content: string, i: nat): string
    requires i <= |content|
  {
    var g0 := SkipSpace(content, i);
    content[g0..TrimEnd(content, g0, LineEnd(content, g0))]
  }

  /** `GroupValue` is one line, without surrounding whitespace. */
  lemma GroupValueIsStrippedLine(content: string, i: nat)
    requires i <= |content|
    ensures '\n' !in GroupValue(content, i) && IsStripped(GroupValue(content, i))
  {
    var g0 := SkipSpace(content, i);
    LineEndCrossesNoBreak(content, g0);
    TrimmedLineIsStripped(content, g0, LineEnd(content, g0));
  }

  /** `GroupValue` is the stripped group of the greedy match from `i`. */
  lemma GroupValueOfGreedyGroup(content: string, i: nat) returns (g0: nat, g1: nat)
    requires i <= |content|
    ensures GreedyGroup(content, i, g0, g1)
    ensures GroupValue(content, i) == Strip(content[g0..g1])
  {
    g0 := SkipSpace(content, i);
    g1 := LineEnd(content, g0);
    SkipSpaceSkipsSpace(content, i);
    LineEndCrossesNoBreak(content, g0);
    StripOfSlice(content, g0, g0, g1);
  }

  /** Any greedy match from `i` yields the same stripped group as `GroupValue`. */
  lemma GroupValueFromGreedyGroup(content: string, i: nat, g0: nat, g1: nat)
    requires GreedyGroup(content, i, g0, g1)
    ensures GroupValue(content, i) == Strip(content[g0..g1])
  {
    SkipSpaceUnique(content, i, g0);
    LineEndUnique(content, g0, g1);
    StripOfSlice(content, g0, g0, g1);
  }

  /**
   * `re.search(lit + r'\s*(.*)', content)`, group 1 stripped: `None` when
   * `lit` occurs nowhere, otherwise the group of the leftmost match.
   */
  function SearchField(content: string, lit: string): Option<string>
  {
    var found := FindFrom(content, lit, 0);
    if found.None? then None
    else Some(GroupValue(content, found.value + |lit|))
  }

  /** The value the source stores for header `name`. */
  function ExtractField(content: string, name: string): Option<string>
  {
    SearchField(content, Label(name))
  }

  /**
   * What the source stores under `Body`: the text after the first
   * separator, stripped, or `None` without a separator.
   */
  function SplitBody(content: string): Option<string>
  {
    var found := FindFrom(content, Separator, 0);
    if found.None? then None
    else
      var start := SkipSpace(content, found.value + |Separator|);
      Some(content[start..TrimEnd(content, start, |content|)])
  }

  /** A header is `None` exactly when its literal `Name:` occurs nowhere in the text. */
  lemma SearchFieldNoneIffAbsent(content: string, lit: string)
    ensures SearchField(content, lit).None? <==> !Occurs(content, lit)
  {
    FindFromNoneIffAbsent(content, lit, 0);
  }

  /** A stored header value is one line with no surrounding whitespace. */
  lemma SearchFieldIsStrippedLine(content: string, lit: string)
    requires SearchField(content, lit).Some?
    ensures '\n' !in SearchField(content, lit).value
    ensures IsStripped(SearchField(content, lit).value)
  {
    var k := FindFrom(content, lit, 0).value;
    GroupValueIsStrippedLine(content, k + |lit|);
  }

  /** The body is `None` exactly when the text has no separator. */
  lemma SplitBodyNoneIffNoSeparator(content: string)
    ensures SplitBody(content).None? <==> !Occurs(content, Separator)
  {
    if SplitBody(content).None? {
      FindFromNoneIffAbsent(content, Separator, 0);
    } else {
      var k := FindFrom(content, Separator, 0).value;
      assert OccursAt(content, Separator, k);
    }
  }

  /** The stored body is the text after the first separator, stripped. */
  lemma SplitBodyStripsRest(content: string, k: nat)
    requires FirstOccurrence(content, Separator, k)
    ensures SplitBody(content) == Some(Strip(content[k + 2..]))
  {
    FirstOccurrenceIsFound(content, Separator, k);
    var start := SkipSpace(content, k + 2);
    SkipSpaceSkipsSpace(content, k + 2);
    StripOfSuffix(content, k + 2, start);
  }

  /** No header name is repeated and none is `Body`, so each has its own key. */
  lemma HeaderKeysDistinct()
    ensures forall i, j :: 0 <= i < j < |HeaderNames| ==> HeaderNames[i] != HeaderNames[j]
    ensures BodyKey !in HeaderNames
  {
  }

  /**
   * `parse_email`: starts from every header mapped to `None`, fills in each
   * header the search finds, in table order, then adds the body.
   */
  method ParseEmail(content: string) returns (record: Record)
    ensures record.Keys == (set name | name in HeaderNames) + {BodyKey}
    ensures forall name :: name in HeaderNames ==> record[name] == ExtractField(content, name)
    ensures record[BodyKey] == SplitBody(content)
  {
    HeaderKeysDistinct();
    record := map name | name in HeaderNames :: None;
    var i := 0;
    while i < |HeaderNames|
      invariant 0 <= i <= |HeaderNames|
      invariant record.Keys == set name | name in HeaderNames
      invariant forall j :: 0 <= j < i ==> record[HeaderNames[j]] == ExtractField(content, HeaderNames[j])
      invariant forall j :: i <= j < |HeaderNames| ==> record[HeaderNames[j]] == None
    {
      var name := HeaderNames[i];
      var found := ExtractField(content, name);
      assert forall j :: 0 <= j < |HeaderNames| && j != i ==> HeaderNames[j] != name;
      if found.Some? {
        record := record[name := found];
      }
      i := i + 1;
    }
    assert forall name :: name in HeaderNames ==> exists j :: 0 <= j < |HeaderNames| && HeaderNames[j] == name;
    ghost var headerKeys := record.Keys;
    record := record[BodyKey := SplitBody(content)];
    assert record.Keys == headerKeys + {BodyKey};
  }

  /**
   * Every value the parser stores comes from a match of `Name:\s*(.*)` at
   * the leftmost occurrence of `Name:` in the whole text.
   */
  lemma SearchFieldIsLeftmostMatch(content: string, lit: string) returns (k: nat, g0: nat, g1: nat)
    requires SearchField(content, lit).Some?
    ensures FirstOccurrence(content, lit, k)
    ensures GreedyMatch(content, lit, k, g0, g1)
    ensures SearchField(content, lit) == Some(Strip(content[g0..g1]))
  {
    k := FindFrom(content, lit, 0).value;
    assert FirstOccurrence(content, lit, k) by {
      FindFromFindsFirst(content, lit);
    }
    g0, g1 := GroupValueOfGreedyGroup(content, k + |lit|);
    SearchFieldFromMatch(content, lit, k, g0, g1);
  }

  /**
   * Conversely, whenever `Name:\s*(.*)` matches at the leftmost occurrence of
   * `Name:`, the stored value is that match's group, stripped.
   */
  lemma SearchFieldFromMatch(content: string, lit: string, k: nat, g0: nat, g1: nat)
    requires FirstOccurrence(content, lit, k)
    requires GreedyMatch(content, lit, k, g0, g1)
    ensures SearchField(content, lit) == Some(Strip(content[g0..g1]))
  {
    FirstOccurrenceIsFound(content, lit, k);
    GroupValueFromGreedyGroup(content, k + |lit|, g0, g1);
  }

  /**
   * When only whitespace lies between `Name:` and position `m`, which holds a
   * non-space, the value is the line starting at `m`, stripped and not empty;
   * stripping also drops any of that whitespace from `lo` on.
   */
  lemma ValueAfterSpaceRun(content: string, lit: string, k: nat, lo: nat, m: nat)
    requires FirstOccurrence(content, lit, k)
    requires k + |lit| <= lo <= m < |content|
    requires AllSpaceIn(content, k + |lit|, m) && !IsSpace(content[m])
    ensures SearchField(content, lit) == Some(Strip(content[lo..LineEnd(content, m)]))
    ensures SearchField(content, lit) != Some([])
  {
    var g1 := LineEnd(content, m);
    assert Strip(content[m..g1]) != [] by {
      StripOfSlice(content, m, m, g1);
      TrimEndCutsSpace(content, m, g1);
    }
    assert GreedyMatch(content, lit, k, m, g1) by {
      LineEndCrossesNoBreak(content, m);
    }
    SearchFieldFromMatch(content, lit, k, m, g1);
    StripDropsSpaceRun(content, lo, m, g1);
  }

  /**
   * A header written with nothing but blanks after its colon takes its value
   * from the next line that holds a non-space: the greedy `\s*` crosses the
   * line break, and any blank lines or indentation after it.
   */
  lemma EmptyValueTakesNextLine(content: string, lit: string, k: nat, n: nat, m: nat)
    requires FirstOccurrence(content, lit, k)
    requires k + |lit| <= n && n < m < |content|
    requires AllSpaceIn(content, k + |lit|, n) && '\n' !in content[k + |lit|..n]
    requires content[n] == '\n'
    requires AllSpaceIn(content, n + 1, m) && !IsSpace(content[m])
    ensures SearchField(content, lit) == Some(Strip(content[n + 1..LineEnd(content, m)]))
    ensures SearchField(content, lit) != Some([])
  {
    SpaceRunsJoin(content, k + |lit|, n, m);
    ValueAfterSpaceRun(content, lit, k, n + 1, m);
  }

  /**
   * The search is not anchored: in a text that starts with an `X-From:` line,
   * the header `From` takes that line's value.
   */
  lemma FromFoundInsideXFrom(v: string, rest: string)
    requires v != [] && IsStripped(v)
    requires forall j :: 0 <= j < |v| ==> v[j] != '\n'
    requires rest == [] || rest[0] == '\n'
    ensures ExtractField("X-From: " + v + rest, "From") == Some(v)
  {
    var pre := "X-From: ";
    var content := pre + v + rest;
    var lit := Label("From");
    var stop := |pre| + |v|;
    assert lit == "From:";
    assert forall j :: 0 <= j < |pre| ==> content[j] == pre[j];
    assert forall j :: |pre| <= j < stop ==> content[j] == v[j - |pre|];
    assert stop < |content| ==> content[stop] == rest[0];
    MismatchAt(content, lit, 0, 0);
    MismatchAt(content, lit, 1, 0);
    MatchAt(content, lit, 2);
    assert AllSpaceIn(content, 7, 8);
    SearchFieldFromMatch(content, lit, 2, |pre|, stop);
    MiddleOfConcat(pre, v, rest);
    StripOfStripped(v);
  }

  /** The search is case-sensitive: `from:` does not match the header `From`. */
  lemma LowerCaseHeaderNotFound()
    ensures ExtractField("from: Ken", "From") == None
  {
    var content := "from: Ken";
    var lit := Label("From");
    assert lit == "From:";
    forall j: nat ensures !OccursAt(content, lit, j) {
      if j + |lit| <= |content| {
        MismatchAt(content, lit, j, 0);
      }
    }
    SearchFieldNoneIffAbsent(content, lit);
  }

  /**
   * The body is whatever follows the first separator, stripped, no matter
   * what `tail` holds (a later separator included).
   */
  lemma BodyAfterFirstSeparator(head: string, tail: string)
    requires !Occurs(head, Separator)
    ensures SplitBody(head + Separator + tail) == Some(Strip(tail))
  {
    var k := FirstSeparatorAfterHead(head, tail);
    SplitBodyStripsRest(head + Separator + tail, k);
    RestAfterSeparator(head, tail, k);
  }

  /** What follows the separator found by `FirstSeparatorAfterHead` strips to `tail` stripped. */
  lemma RestAfterSeparator(head: string, tail: string, k: nat)
    requires k == if |head| > 0 && head[|head| - 1] == '\n' then |head| - 1 else |head|
    ensures Strip((head + Separator + tail)[k + 2..]) == Strip(tail)
  {
    var content := head + Separator + tail;
    var rest := Separator + tail;
    assert content == head + rest;
    assert content[|head|..] == rest;
    if k < |head| {
      assert content[k + 2..] == rest[1..] == ['\n'] + tail;
      StripSkipsLeadingSpace('\n', tail);
    } else {
      assert content[k + 2..] == rest[2..] == tail;
    }
  }

  /**
   * When `head` holds no separator, the first separator of
   * `head + "\n\n" + tail` is the one put after `head`, or starts one
   * character earlier when `head` ends with a line break.
   */
  lemma FirstSeparatorAfterHead(head: string, tail: string) returns (k: nat)
    requires !Occurs(head, Separator)
    ensures k == if |head| > 0 && head[|head| - 1] == '\n' then |head| - 1 else |head|
    ensures FirstOccurrence(head + Separator + tail, Separator, k)
  {
    var content := head + Separator + tail;
    var n := |head|;
    forall j: nat | j + 2 <= n
      ensures !OccursAt(content, Separator, j)
    {
      OccursInPrefix(head, Separator + tail, Separator, j);
      assert content == head + (Separator + tail);
    }
    assert content[n] == '\n' && content[n + 1] == '\n';
    if n > 0 && head[n - 1] == '\n' {
      k := n - 1;
      assert content[k] == '\n';
      MatchAt(content, Separator, k);
    } else {
      k := n;
      MatchAt(content, Separator, k);
      if n > 0 {
        assert content[n - 1] == head[n - 1];
        MismatchAt(content, Separator, n - 1, 0);
      }
    }
  }

  /** An occurrence that ends within `s` is an occurrence in `s + t` and back. */
  lemma OccursInPrefix(s: string, t: string, p: string, k: nat)
    requires k + |p| <= |s|
    ensures OccursAt(s + t, p, k) <==> OccursAt(s, p, k)
  {
  }

  /** The header block before the first separator never affects the body. */
  lemma BodyIgnoresHeaderBlock(head1: string, head2: string, tail: string)
    requires !Occurs(head1, Separator)
    requires !Occurs(head2, Separator)
    ensures SplitBody(head1 + Separator + tail) == SplitBody(head2 + Separator + tail)
  {
    BodyAfterFirstSeparator(head1, tail);
    BodyAfterFirstSeparator(head2, tail);
  }

  /** The split is done at most once: a second separator stays inside the body. */
  lemma LaterSeparatorStaysInBody(head: string, first: string, rest: string)
    requires !Occurs(head, Separator)
    requires first != [] && !IsSpace(first[0])
    requires rest != [] && !IsSpace(rest[|rest| - 1])
    ensures SplitBody(head + Separator + first + Separator + rest) == Some(first + Separator + rest)
  {
    var tail := first + Separator + rest;
    assert Strip(tail) == tail by {
      assert tail[0] == first[0] && tail[|tail| - 1] == rest[|rest| - 1];
      StripOfStripped(tail);
    }
    assert head + Separator + first + Separator + rest == head + Separator + tail;
    BodyAfterFirstSeparator(head, tail);
  }

  /** A separator followed only by whitespace gives the empty body, not `None`. */
  lemma BlankBodyIsEmpty(head: string, tail: string)
    requires !Occurs(head, Separator)
    requires AllSpace(tail)
    ensures SplitBody(head + Separator + tail) == Some([])
  {
    BodyAfterFirstSeparator(head, tail);
    StripCharacterization(tail, [], []);
    assert tail + [] + [] == tail;
  }
}
