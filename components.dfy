/**
 * The bug-component table: lines of `bugComponents.properties` read as
 * "component prefix" pairs, and the longest-prefix lookup `getBugComponent`
 * makes over the resulting `HashMap`. A `HashMap` iterates in an order this
 * model does not know, so the lookup takes the entries in whatever order the
 * map yields them.
 */
module Components {
  import opened Designations

  // ---------------------------------------------------------------- lookup

  /**
   * Entry `i` is the one the lookup over the first `n` entries settles on:
   * its key is a prefix of the class name, no matching key among the first
   * `n` is longer, and every matching key before it is strictly shorter.
   */
  ghost predicate BestIn(entries: seq<(string, string)>, className: string, n: int, i: int)
    requires 0 <= n <= |entries|
  {
    && 0 <= i < n
    && entries[i].0 <= className
    && (forall j :: 0 <= j < n && entries[j].0 <= className ==> |entries[j].0| <= |entries[i].0|)
    && (forall j :: 0 <= j < i && entries[j].0 <= className ==> |entries[j].0| < |entries[i].0|)
  }

  /**
   * The state of the loop of `getBugComponent` after `k` entries, with
   * `best` the entry the result came from.
   */
  ghost predicate ScanState(entries: seq<(string, string)>, className: string, k: int, longest: int, result: Option<string>, best: int)
    requires 0 <= k <= |entries|
  {
    && (result.None? ==> longest == -1 && forall j :: 0 <= j < k ==> !(entries[j].0 <= className))
    && (result.Some? ==> BestIn(entries, className, k, best) && result.value == entries[best].1 && longest == |entries[best].0|)
  }

  /** The loop of `getBugComponent` from entry `k` on. */
  function Scan(entries: seq<(string, string)>, className: string, k: nat, longest: int, result: Option<string>): (r: Option<string>)
    requires k <= |entries|
    ensures result.Some? ==> r.Some?
    ensures r.Some? && r != result ==>
      exists j :: k <= j < |entries| && entries[j].0 <= className && |entries[j].0| > longest && r.value == entries[j].1
    decreases |entries| - k
  {
    if k == |entries| then result
    else
      var key := entries[k].0;
      if key <= className && longest < |key| then Scan(entries, className, k + 1, |key|, Some(entries[k].1))
      else Scan(entries, className, k + 1, longest, result)
  }

  /** The entry the loop of `getBugComponent` from entry `k` on takes its result from. */
  ghost function ScanBest(entries: seq<(string, string)>, className: string, k: nat, longest: int, best: int): (r: int)
    requires k <= |entries|
    decreases |entries| - k
  {
    if k == |entries| then best
    else
      var key := entries[k].0;
      if key <= className && longest < |key| then ScanBest(entries, className, k + 1, |key|, k)
      else ScanBest(entries, className, k + 1, longest, best)
  }

  /** One turn of the loop keeps the scan state. */
  lemma ScanStep(entries: seq<(string, string)>, className: string, k: nat, longest: int, result: Option<string>, best: int)
    requires k < |entries|
    requires ScanState(entries, className, k, longest, result, best)
    ensures var key := entries[k].0;
      if key <= className && longest < |key| then ScanState(entries, className, k + 1, |key|, Some(entries[k].1), k)
      else ScanState(entries, className, k + 1, longest, result, best)
  {
    var key := entries[k].0;
    if key <= className && longest < |key| {
      assert BestIn(entries, className, k + 1, k);
    } else if result.Some? {
      assert BestIn(entries, className, k + 1, best);
    }
  }

  /** The loop run to the end finds nothing when no key matches, and otherwise the entry `ScanBest` names. */
  lemma {:induction false} ScanFinds(entries: seq<(string, string)>, className: string, k: nat, longest: int, result: Option<string>, best: int)
    requires k <= |entries|
    requires ScanState(entries, className, k, longest, result, best)
    ensures var r, i := Scan(entries, className, k, longest, result), ScanBest(entries, className, k, longest, best);
      (r.None? ==> forall j :: 0 <= j < |entries| ==> !(entries[j].0 <= className))
      && (r.Some? ==> BestIn(entries, className, |entries|, i) && r.value == entries[i].1)
    decreases |entries| - k
  {
    if k < |entries| {
      ScanStep(entries, className, k, longest, result, best);
      var key := entries[k].0;
      if key <= className && longest < |key| {
        ScanFinds(entries, className, k + 1, |key|, Some(entries[k].1), k);
      } else {
        ScanFinds(entries, className, k + 1, longest, result, best);
      }
    }
  }

  /**
   * `getBugComponent`: the component of the longest key that is a prefix of
   * the class name; among keys of that length the first in iteration order
   * wins; None when no key is a prefix.
   */
  function GetBugComponent(entries: seq<(string, string)>, className: string): (r: Option<string>)
    ensures r.None? <==> forall j :: 0 <= j < |entries| ==> !(entries[j].0 <= className)
    ensures r.Some? ==> exists i :: BestIn(entries, className, |entries|, i) && r.value == entries[i].1
  {
    ScanFinds(entries, className, 0, -1, None, -1);
    var r := Scan(entries, className, 0, -1, None);
    ghost var i := ScanBest(entries, className, 0, -1, -1);
    assert r.Some? ==> BestIn(entries, className, |entries|, i) && entries[i].0 <= className;
    r
  }

  /** Two prefixes of the same string with the same length are the same string. */
  lemma PrefixesOfSameLength(a: string, b: string, c: string)
    requires a <= c && b <= c && |a| == |b|
    ensures a == b
  {
    assert a == c[..|a|] && b == c[..|b|];
  }

  /**
   * When `entries` lists the items of the map `m`, the lookup answers from
   * the map alone: None when no key of `m` is a prefix of the class name,
   * and otherwise the component of the longest such key, whatever order the
   * map yields its entries in.
   */
  lemma LookupOverTable(entries: seq<(string, string)>, m: map<string, string>, className: string)
    requires forall j :: 0 <= j < |entries| ==> entries[j].0 in m && m[entries[j].0] == entries[j].1
    requires forall key :: key in m ==> exists j :: 0 <= j < |entries| && entries[j].0 == key
    ensures GetBugComponent(entries, className).None? <==> forall key :: key in m ==> !(key <= className)
    ensures forall key :: key in m && key <= className && (forall other :: other in m && other <= className ==> |other| <= |key|) ==>
      GetBugComponent(entries, className) == Some(m[key])
  {
    var r := GetBugComponent(entries, className);
    if r.None? {
      forall key | key in m ensures !(key <= className) {
        var j :| 0 <= j < |entries| && entries[j].0 == key;
      }
    }
    forall key | key in m && key <= className && (forall other :: other in m && other <= className ==> |other| <= |key|)
      ensures r == Some(m[key])
    {
      var j :| 0 <= j < |entries| && entries[j].0 == key;
      var i :| BestIn(entries, className, |entries|, i) && r.value == entries[i].1;
      PrefixesOfSameLength(key, entries[i].0, className);
    }
  }

  // ---------------------------------------------------------------- the table file

  /** `s.trim().length() == 0`: every character is at most a space. */
  predicate IsBlank(s: string)
  {
    forall i :: 0 <= i < |s| ==> s[i] <= ' '
  }

  /** `s.indexOf(c)`. */
  function IndexOf(s: string, c: char): (r: int)
    ensures r == -1 <==> c !in s
    ensures r != -1 ==> 0 <= r < |s| && s[r] == c && c !in s[..r]
  {
    if s == [] then -1
    else if s[0] == c then 0
    else
      var r := IndexOf(s[1..], c);
      assert s == [s[0]] + s[1..];
      if r == -1 then -1
      else
        assert s[..r + 1] == [s[0]] + s[1..][..r];
        r + 1
  }

  /**
   * The body of the loop of `loadBugComponents` for one line: a blank line is
   * skipped; a line without a space maps the empty prefix to the whole line;
   * otherwise the text after the first space is the prefix and the text
   * before it the component. The pair is (prefix, component).
   */
  function ParseComponentLine(s: string): (r: Option<(string, string)>)
    ensures r.None? <==> IsBlank(s)
    ensures r.Some? && ' ' !in s ==> r.value == ("", s)
    ensures r.Some? && ' ' in s ==> exists x :: 0 <= x < |s| && s[x] == ' ' && ' ' !in s[..x] && r.value == (s[x + 1..], s[..x])
  {
    if IsBlank(s) then None
    else
      var x := IndexOf(s, ' ');
      if x == -1 then Some(("", s)) else Some((s[x + 1..], s[..x]))
  }

  /** The first `c` after a stretch free of `c` is found right after it. */
  lemma {:induction false} IndexOfAfter(a: string, c: char, b: string)
    requires c !in a
    ensures IndexOf(a + [c] + b, c) == |a|
  {
    if a != [] {
      assert (a + [c] + b)[1..] == a[1..] + [c] + b;
      IndexOfAfter(a[1..], c, b);
    }
  }

  /** A line written as "component prefix" reads back as that pair. */
  lemma ParseComponentLineRoundTrip(component: string, prefix: string)
    requires ' ' !in component
    requires exists i :: 0 <= i < |component| && component[i] > ' '
    ensures ParseComponentLine(component + " " + prefix) == Some((prefix, component))
  {
    var s := component + " " + prefix;
    var i :| 0 <= i < |component| && component[i] > ' ';
    assert s[i] == component[i];
    IndexOfAfter(component, ' ', prefix);
    assert s[|component| + 1..] == prefix;
    assert s[..|component|] == component;
  }

  /** Whether `line` assigns a component to `prefix`. */
  predicate Defines(line: string, prefix: string)
  {
    ParseComponentLine(line).Some? && ParseComponentLine(line).value.0 == prefix
  }

  /** One line of the loop of `loadBugComponents` applied to the table. */
  function ReadLine(m: map<string, string>, line: string): (r: map<string, string>)
    ensures forall k :: k in r <==> k in m || Defines(line, k)
    ensures forall k :: k in r && !Defines(line, k) ==> r[k] == m[k]
    ensures forall k :: Defines(line, k) ==> r[k] == ParseComponentLine(line).value.1
  {
    match ParseComponentLine(line)
    case None => m
    case Some(kv) => m[kv.0 := kv.1]
  }

  /** The table after `lines` are read into `m`. */
  function ComponentsAfter(m: map<string, string>, lines: seq<string>): (r: map<string, string>)
  {
    if lines == [] then m
    else ReadLine(ComponentsAfter(m, lines[..|lines| - 1]), lines[|lines| - 1])
  }

  /** One more line read. */
  lemma ComponentsAfterStep(m: map<string, string>, lines: seq<string>, i: nat)
    requires i < |lines|
    ensures ComponentsAfter(m, lines[..i + 1]) == ReadLine(ComponentsAfter(m, lines[..i]), lines[i])
  {
    assert lines[..i + 1][..i] == lines[..i];
  }

  /** Reading the table keeps every earlier prefix and adds the prefix of every non-blank line. */
  lemma {:induction false} KeysAfterReading(m: map<string, string>, lines: seq<string>, k: string)
    ensures k in ComponentsAfter(m, lines) <==> k in m || exists i :: 0 <= i < |lines| && Defines(lines[i], k)
  {
    if lines != [] {
      var n := |lines| - 1;
      var front := lines[..n];
      KeysAfterReading(m, front, k);
      assert forall i :: 0 <= i < n ==> front[i] == lines[i];
      if exists i :: 0 <= i < |lines| && Defines(lines[i], k) {
        var i :| 0 <= i < |lines| && Defines(lines[i], k);
        if i < n {
          assert Defines(front[i], k);
        }
      }
    }
  }

  /** The index of the last of `lines` that defines `prefix`, or -1 when none does. */
  function LastDefining(lines: seq<string>, prefix: string): (i: int)
    ensures -1 <= i < |lines|
    ensures i >= 0 ==> Defines(lines[i], prefix)
    ensures forall j :: i < j < |lines| ==> !Defines(lines[j], prefix)
  {
    if lines == [] then -1
    else
      var n := |lines| - 1;
      if Defines(lines[n], prefix) then n
      else
        var i := LastDefining(lines[..n], prefix);
        assert forall j :: i < j < n ==> lines[..n][j] == lines[j];
        i
  }

  /**
   * Each prefix ends up with the component of the last line that defines it,
   * or keeps its earlier component when no line does.
   */
  lemma {:induction false} LastLineWins(m: map<string, string>, lines: seq<string>, k: string)
    requires k in ComponentsAfter(m, lines)
    ensures var i, r := LastDefining(lines, k), ComponentsAfter(m, lines);
      if i == -1 then k in m && r[k] == m[k] else r[k] == ParseComponentLine(lines[i]).value.1
  {
    if lines != [] {
      var n := |lines| - 1;
      var front := lines[..n];
      if !Defines(lines[n], k) {
        LastLineWins(m, front, k);
        var i := LastDefining(front, k);
        if i != -1 {
          assert front[i] == lines[i];
        }
      }
    }
  }
}
