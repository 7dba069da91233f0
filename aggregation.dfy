/**
 The statistics pipeline of `runGitWho` (cmd/root.go:165-222) as the loops
 that run it: the parsing loop over the log lines with its author cursor and
 its table of records, the copy of the table's records into a slice, and the
 in-place sort of that slice by total changes. Each is proved against the
 reference semantics in module GitLog.
 */
module Aggregation {
  import opened Text
  import opened GitLog

  /** The parsing loop of cmd/root.go:166-209: the table of records it builds
      from the lines of the log. */
  method Aggregate(lines: seq<string>) returns (stats: map<string, Contributor>)
    ensures stats == Run(lines).stats
    ensures WellKeyed(stats)
  {
    stats := map[];
    var currentUser := "";
    var currentEmail := "";
    for i := 0 to |lines|
      invariant Run(lines[..i]) == State(Cursor(currentUser, currentEmail), stats)
    {
      RunPrefix(lines, i);
      currentUser, currentEmail, stats := ReadLine(currentUser, currentEmail, stats, lines[i]);
    }
    assert lines[..|lines|] == lines;
    RunWellKeyed(lines);
  }

  /** Reading one more line of `lines` is one more `Step`. */
  lemma RunPrefix(lines: seq<string>, i: nat)
    requires i < |lines|
    ensures Run(lines[..i + 1]) == Step(Run(lines[..i]), lines[i])
  {
    assert lines[..i + 1] == lines[..i] + [lines[i]];
    RunSnoc(lines[..i], lines[i]);
  }

  /** The body of the parsing loop (cmd/root.go:173-208) for one line: the new
      cursor and table are one `Step` of the reference semantics. A binary
      numstat line ends the iteration early, as the loop's `continue` does. */
  method ReadLine(currentUser: string, currentEmail: string, stats: map<string, Contributor>, line: string)
    returns (user: string, email: string, updated: map<string, Contributor>)
    ensures State(Cursor(user, email), updated) == Step(State(Cursor(currentUser, currentEmail), stats), line)
  {
    ghost var st := State(Cursor(currentUser, currentEmail), stats);
    user, email, updated := currentUser, currentEmail, stats;
    if '|' in line {
      // an author line `name|email`
      StepIdentity(st, line);
      var parts := Split(line, '|');
      if |parts| == 2 {
        user := parts[0];
        email := parts[1];
      }
    } else if |line| > 0 && currentUser != "" && !("commit" <= line) {
      // a numstat line `added deleted path`
      var parts := Fields(line);
      if |parts| >= 3 {
        if parts[0] == "-" && parts[1] == "-" {
          // a binary file
          StepSkipped(st, line);
          return;
        }
        StepNumstat(st, line);
        var additions := ScanInt(parts[0]);
        var deletions := ScanInt(parts[1]);
        updated := AddToRecord(stats, currentUser, currentEmail, additions, deletions);
      } else {
        StepSkipped(st, line);
      }
    } else {
      StepSkipped(st, line);
    }
  }

  /** Lines 194-206 of cmd/root.go: find the record of (user, email), creating
      it with zero totals if missing, then count one more commit and add the
      line's numbers to it. */
  method AddToRecord(stats: map<string, Contributor>, user: string, email: string, additions: int, deletions: int)
    returns (updated: map<string, Contributor>)
    ensures updated == Record(stats, Cursor(user, email), additions, deletions)
  {
    updated := stats;
    var key := Key(user, email);
    if key !in updated {
      updated := updated[key := Contributor(user, email, 0, 0, 0)];
    }
    var contributor := updated[key];
    updated := updated[key := contributor.(commits := contributor.commits + 1,
                                           additions := contributor.additions + additions,
                                           deletions := contributor.deletions + deletions)];
  }

  /** `stats` listed once per record: `s` has one entry per key of the table,
      and each entry is the record stored under its own key. */
  ghost predicate ListsRecords(s: seq<Contributor>, stats: map<string, Contributor>)
  {
    && |s| == |stats|
    && (forall i :: 0 <= i < |s| ==> KeyOf(s[i]) in stats && stats[KeyOf(s[i])] == s[i])
    && (forall i, j :: 0 <= i < j < |s| ==> KeyOf(s[i]) != KeyOf(s[j]))
  }

  /** The copy of the table's records into a slice (cmd/root.go:212-215). Go
      visits a map in no fixed order; here the next key is an arbitrary one
      not yet visited. `keys` records the order of the visit. */
  method Flatten(stats: map<string, Contributor>) returns (contributors: seq<Contributor>, ghost keys: seq<string>)
    ensures |contributors| == |stats|
    ensures forall i :: 0 <= i < |contributors| ==> contributors[i] in stats.Values
    ensures forall k :: k in stats ==> stats[k] in contributors
    ensures |keys| == |stats|
    ensures forall i :: 0 <= i < |keys| ==> keys[i] in stats && contributors[i] == stats[keys[i]]
    ensures forall i, j :: 0 <= i < j < |keys| ==> keys[i] != keys[j]
  {
    contributors := [];
    keys := [];
    var unvisited := stats.Keys;
    while unvisited != {}
      invariant unvisited <= stats.Keys
      invariant |contributors| == |keys| && |keys| + |unvisited| == |stats|
      invariant forall i :: 0 <= i < |keys| ==> keys[i] in stats && keys[i] !in unvisited && contributors[i] == stats[keys[i]]
      invariant forall i, j :: 0 <= i < j < |keys| ==> keys[i] != keys[j]
      invariant forall k :: k in stats && k !in unvisited ==> stats[k] in contributors
      decreases unvisited
    {
      var key :| key in unvisited;
      contributors := contributors + [stats[key]];
      keys := keys + [key];
      unvisited := unvisited - {key};
    }
  }

  /** Totals never increase along `s`. */
  ghost predicate ByTotalDescending(s: seq<Contributor>)
  {
    forall i, j :: 0 <= i < j < |s| ==> Total(s[i]) >= Total(s[j])
  }

  /** `sort.Slice` with the order "greater total first" (cmd/root.go:218-222):
      an in-place sort by non-increasing `Additions + Deletions`. Go's sort is
      not stable, so nothing is promised about records with equal totals. */
  method SortByTotal(a: array<Contributor>)
    modifies a
    ensures ByTotalDescending(a[..])
    ensures multiset(a[..]) == old(multiset(a[..]))
  {
    if a.Length < 2 { return; }
    for i := 1 to a.Length
      invariant ByTotalDescending(a[..i])
      invariant multiset(a[..]) == old(multiset(a[..]))
    {
      InsertDown(a, i);
    }
    assert a[..a.Length] == a[..];
  }

  /** Moves `a[i]` down past every element with a smaller total, so that the
      sorted prefix `a[..i]` grows to `a[..i + 1]`. */
  method InsertDown(a: array<Contributor>, i: nat)
    requires i < a.Length && ByTotalDescending(a[..i])
    modifies a
    ensures ByTotalDescending(a[..i + 1])
    ensures multiset(a[..]) == old(multiset(a[..]))
    ensures a[i + 1..] == old(a[i + 1..])
  {
    var j := i;
    while j > 0 && Total(a[j - 1]) < Total(a[j])
      invariant 0 <= j <= i
      invariant forall p, q :: 0 <= p < q <= i && q != j ==> Total(a[p]) >= Total(a[q])
      invariant 0 < j < i ==> Total(a[j - 1]) >= Total(a[j + 1])
      invariant multiset(a[..]) == old(multiset(a[..]))
      invariant a[i + 1..] == old(a[i + 1..])
    {
      SwapDown(a, j);
      j := j - 1;
    }
  }

  /** Exchanges `a[j - 1]` and `a[j]`. */
  method SwapDown(a: array<Contributor>, j: nat)
    requires 0 < j < a.Length
    modifies a
    ensures a[..] == old(a[..])[j - 1 := old(a[j])][j := old(a[j - 1])]
    ensures multiset(a[..]) == old(multiset(a[..]))
  {
    a[j - 1], a[j] := a[j], a[j - 1];
  }

  // ---------------------------------------------------------------------------
  // The whole statistics pipeline
  // ---------------------------------------------------------------------------

  /** The statistics part of runGitWho (cmd/root.go:165-222): split the text
      printed by `git log --format=%an|%ae --numstat` into lines, build the
      table, copy its records into a slice and sort the slice by total changes.
      The result lists every record of the table exactly once, greatest total
      first. */
  method ContributorStats(output: string) returns (contributors: seq<Contributor>)
    ensures ListsRecords(contributors, Run(Split(output, '\n')).stats)
    ensures ByTotalDescending(contributors)
  {
    var lines := Split(output, '\n');
    var stats := Aggregate(lines);
    var flat, keys := Flatten(stats);
    FlattenLists(stats, flat, keys);
    var slice := new Contributor[|flat|](i requires 0 <= i < |flat| => flat[i]);
    assert slice[..] == flat;
    SortByTotal(slice);
    contributors := slice[..];
    PermutationLists(flat, contributors, stats);
  }

  /** What Flatten returns, read through the keys stored in the records. */
  lemma FlattenLists(stats: map<string, Contributor>, flat: seq<Contributor>, keys: seq<string>)
    requires WellKeyed(stats)
    requires |flat| == |keys| == |stats|
    requires forall i :: 0 <= i < |keys| ==> keys[i] in stats && flat[i] == stats[keys[i]]
    requires forall i, j :: 0 <= i < j < |keys| ==> keys[i] != keys[j]
    ensures ListsRecords(flat, stats)
  {
    assert forall i :: 0 <= i < |flat| ==> KeyOf(flat[i]) == keys[i];
  }

  /** A sequence whose elements are pairwise distinct holds each value at most once. */
  lemma {:induction false} DistinctAtMostOnce(s: seq<Contributor>, x: Contributor)
    requires forall i, j :: 0 <= i < j < |s| ==> s[i] != s[j]
    ensures multiset(s)[x] <= 1
  {
    if s != [] {
      var t := s[1..];
      DistinctAtMostOnce(t, x);
      assert s == [s[0]] + t;
      if s[0] == x {
        assert x !in t;
      }
    }
  }

  /** A value found at two positions is held at least twice. */
  lemma TwiceAtLeastTwice(s: seq<Contributor>, i: nat, j: nat)
    requires i < j < |s| && s[i] == s[j]
    ensures multiset(s)[s[i]] >= 2
  {
    assert s == s[..j] + [s[j]] + s[j + 1..];
    assert s[..j][i] == s[i];
    assert s[i] in multiset(s[..j]);
  }

  /** Reordering a listing of the table's records gives another listing of them. */
  lemma PermutationLists(s: seq<Contributor>, t: seq<Contributor>, stats: map<string, Contributor>)
    requires ListsRecords(s, stats)
    requires multiset(s) == multiset(t)
    ensures ListsRecords(t, stats)
  {
    assert |t| == |multiset(t)| == |multiset(s)| == |s|;
    forall i | 0 <= i < |t|
      ensures KeyOf(t[i]) in stats && stats[KeyOf(t[i])] == t[i]
    {
      assert t[i] in multiset(s);
      var j :| 0 <= j < |s| && s[j] == t[i];
    }
    forall i, j | 0 <= i < j < |t|
      ensures KeyOf(t[i]) != KeyOf(t[j])
    {
      if KeyOf(t[i]) == KeyOf(t[j]) {
        assert forall p, q :: 0 <= p < q < |s| ==> s[p] != s[q];
        DistinctAtMostOnce(s, t[i]);
        TwiceAtLeastTwice(t, i, j);
        assert false;
      }
    }
  }
}
