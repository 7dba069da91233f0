/**
 What the output of `git log --format=%an|%ae --numstat` means to gitwho
 (cmd/root.go:166-209): how each line is classified, how the author cursor
 moves, and which contributor record each accepted numstat line is added to.

 `Run` is the line-by-line semantics of the parsing loop, written as a fold of
 `Step`. `Attributions` and `Tally` are an independent description of the
 intended result: the list of accepted numstat lines with the author they
 belong to, and, per author, the count and sums over that list. The lemmas
 connect the two.
 */
module GitLog {
  import opened Text

  // ---------------------------------------------------------------------------
  // Data model
  // ---------------------------------------------------------------------------

  /** One row of the report: an author identity and its totals (cmd/root.go:20-26). */
  datatype Contributor = Contributor(name: string, email: string, commits: int, additions: int, deletions: int)

  /** The figure the report is sorted by. */
  function Total(c: Contributor): int
  {
    c.additions + c.deletions
  }

  /** The key of the statistics table, `fmt.Sprintf("%s|%s", name, email)`. */
  function Key(name: string, email: string): string
  {
    name + "|" + email
  }

  function KeyOf(c: Contributor): string
  {
    Key(c.name, c.email)
  }

  predicate BarFree(s: string)
  {
    '|' !in s
  }

  /** The key is the identity joined by `|`, so splitting it gives the identity back. */
  lemma SplitKey(name: string, email: string)
    requires BarFree(name) && BarFree(email)
    ensures Split(Key(name, email), '|') == [name, email]
  {
    var parts := [name, email];
    assert Join(parts, '|') == Key(name, email) by {
      assert Join(parts[1..], '|') == email;
    }
    SplitJoin(parts, '|');
  }

  /** As long as identities hold no `|`, two identities share a key exactly when they are equal. */
  lemma KeyInjective(n1: string, e1: string, n2: string, e2: string)
    requires BarFree(n1) && BarFree(e1) && BarFree(n2) && BarFree(e2)
    ensures Key(n1, e1) == Key(n2, e2) <==> n1 == n2 && e1 == e2
  {
    SplitKey(n1, e1);
    SplitKey(n2, e2);
  }

  /** The author cursor of the parsing loop: `currentUser` and `currentEmail`. */
  datatype Cursor = Cursor(user: string, email: string)

  /** The parser's state: the cursor and the statistics table keyed by `Key`. */
  datatype State = State(cursor: Cursor, stats: map<string, Contributor>)

  /** Both cursor fields empty and no records (cmd/root.go:166, 169-170). */
  const Start := State(Cursor("", ""), map[])

  // ---------------------------------------------------------------------------
  // Line classification
  // ---------------------------------------------------------------------------

  datatype LineKind =
    | Identity(name: string, email: string)      // `name|email`
    | BadIdentity                                // holds `|`, but not exactly one
    | Numstat(additions: int, deletions: int)    // `added<ws>deleted<ws>path...`
    | BinaryNumstat                              // `-<ws>-<ws>path...`
    | Other                                      // blank, `commit...`, fewer than 3 fields

  /** How the loop body of cmd/root.go:173-192 reads one line, apart from the
      check that a cursor is set, which `Step` makes. */
  function Classify(line: string): (k: LineKind)
    ensures k.Identity? <==> Occurrences(line, '|') == 1
    ensures k.Identity? ==> Key(k.name, k.email) == line && BarFree(k.name) && BarFree(k.email)
    ensures k.BadIdentity? <==> Occurrences(line, '|') > 1
    ensures k.Numstat? || k.BinaryNumstat? ==>
              '|' !in line && line != "" && !("commit" <= line) && |Fields(line)| >= 3
  {
    OccurrencesPositive(line, '|');
    if '|' in line then
      var parts := Split(line, '|');
      if |parts| == 2 then
        JoinSplit(line, '|');
        Identity(parts[0], parts[1])
      else
        BadIdentity
    else if line == "" || "commit" <= line then
      Other
    else
      var fields := Fields(line);
      if |fields| < 3 then Other
      else if fields[0] == "-" && fields[1] == "-" then BinaryNumstat
      else Numstat(ScanInt(fields[0]), ScanInt(fields[1]))
  }

  lemma {:induction false} OccurrencesPositive(s: string, c: char)
    ensures c in s <==> Occurrences(s, c) > 0
  {
    if s != [] {
      OccurrencesPositive(s[1..], c);
      assert s == [s[0]] + s[1..];
    }
  }

  /** The identity line git prints for a bar-free author is read back as that author. */
  lemma ClassifyIdentity(name: string, email: string)
    requires BarFree(name) && BarFree(email)
    ensures Classify(Key(name, email)) == Identity(name, email)
  {
    SplitKey(name, email);
  }

  /** The line `git log --numstat` prints for a text file. */
  function NumstatText(added: nat, deleted: nat, path: string): string
  {
    Decimal(added) + "\t" + Decimal(deleted) + "\t" + path
  }

  lemma DecimalIsWord(n: nat)
    ensures Decimal(n) != "" && NoSpace(Decimal(n)) && BarFree(Decimal(n)) && Decimal(n) != "-"
    ensures forall k :: 0 <= k < |Decimal(n)| ==> IsDigit(Decimal(n)[k])
  {
    var ds := Decimal(n);
    assert forall k :: 0 <= k < |ds| ==> IsDigit(ds[k]) && !IsSpace(ds[k]) && ds[k] != '|';
    assert ds != "-" by { assert IsDigit(ds[0]); }
  }

  /** The numstat line of a path without `|` holds no `|`. */
  lemma NumstatBarFree(added: nat, deleted: nat, path: string)
    requires BarFree(path)
    ensures BarFree(NumstatText(added, deleted, path))
  {
    var a, d := Decimal(added), Decimal(deleted);
    var line := NumstatText(added, deleted, path);
    DecimalIsWord(added);
    DecimalIsWord(deleted);
    forall i | 0 <= i < |line| ensures line[i] != '|' {
      if i < |a| { assert line[i] == a[i]; }
      else if i == |a| || i == |a| + 1 + |d| { }
      else if i < |a| + 1 + |d| { assert line[i] == d[i - |a| - 1]; }
      else { assert line[i] == path[i - |a| - 2 - |d|]; }
    }
  }

  /** A line with no `|` that is non-empty, does not start with `commit` and
      has at least three fields is a numstat line: binary when its first two
      fields are `-`, otherwise read as its first two fields scanned. */
  lemma ClassifyStat(line: string)
    requires '|' !in line && line != "" && !("commit" <= line) && |Fields(line)| >= 3
    ensures var fs := Fields(line);
            Classify(line) == if fs[0] == "-" && fs[1] == "-" then BinaryNumstat
                              else Numstat(ScanInt(fs[0]), ScanInt(fs[1]))
  {
    OccurrencesPositive(line, '|');
  }

  /** Three bar-free words joined by a separator other than `|`, the first
      not starting with `commit`, form a line with no `|` that is not taken for
      a `commit` line. */
  lemma JoinedStatLine(a: string, b: string, c: string, sep: char)
    requires BarFree(a) && BarFree(b) && BarFree(c) && sep != '|'
    requires a != "" && a[0] != 'c'
    ensures var line := a + [sep] + b + [sep] + c;
            '|' !in line && line != "" && !("commit" <= line)
  {
    var line := a + [sep] + b + [sep] + c;
    forall i | 0 <= i < |line| ensures line[i] != '|' {
      if i < |a| { assert line[i] == a[i]; }
      else if i == |a| || i == |a| + 1 + |b| { }
      else if i < |a| + 1 + |b| { assert line[i] == b[i - |a| - 1]; }
      else { assert line[i] == c[i - |a| - 2 - |b|]; }
    }
    assert line[0] == a[0];
  }

  /** Two non-empty, space-free words, each followed by white space, are the
      first two fields of the line; the rest of the line, when it starts with a
      non-space character, gives at least one more field. */
  lemma FieldsOfStatLine(a: string, b: string, c: string, sep: char)
    requires IsSpace(sep)
    requires a != "" && NoSpace(a) && b != "" && NoSpace(b) && c != "" && !IsSpace(c[0])
    ensures Fields(a + [sep] + b + [sep] + c) == [a, b] + Fields(c)
    ensures |Fields(c)| >= 1
  {
    var bc := b + [sep] + c;
    StatLineTail(a, b, c, sep);
    FieldsCons(a, sep, bc);
    FieldsCons(b, sep, c);
    ConsTwo(a, b, Fields(c));
    FieldsStart(c);
  }

  /** Two words followed by nothing but white space make a line of only two fields. */
  lemma FieldsOfShortStatLine(a: string, b: string, c: string, sep: char)
    requires IsSpace(sep)
    requires a != "" && NoSpace(a) && b != "" && NoSpace(b)
    requires forall i :: 0 <= i < |c| ==> IsSpace(c[i])
    ensures Fields(a + [sep] + b + [sep] + c) == [a, b]
  {
    StatLineTail(a, b, c, sep);
    FieldsCons(a, sep, b + [sep] + c);
    FieldsCons(b, sep, c);
    FieldsAllSpace(c);
    ConsTwo(a, b, []);
  }

  lemma ConsTwo(a: string, b: string, rest: seq<string>)
    ensures [a] + ([b] + rest) == [a, b] + rest
  {
  }

  lemma StatLineTail(a: string, b: string, c: string, sep: char)
    ensures a + [sep] + b + [sep] + c == a + [sep] + (b + [sep] + c)
  {
    var p := a + [sep];
    calc {
      a + [sep] + b + [sep] + c;
      (p + b) + ([sep] + c);
      p + (b + ([sep] + c));
    }
  }

  /** The numstat line git prints for a text file, `added<TAB>deleted<TAB>path`,
      is read back as its two counts, for a path that is non-empty, does not
      start with white space and holds no `|` (see `SpacePathDropped` and
      `BarPathIsIdentity` for the other paths). */
  lemma ClassifyNumstat(added: nat, deleted: nat, path: string)
    requires added <= MaxInt64 && deleted <= MaxInt64
    requires path != "" && !IsSpace(path[0]) && BarFree(path)
    ensures Classify(NumstatText(added, deleted, path)) == Numstat(added, deleted)
  {
    var a, d := Decimal(added), Decimal(deleted);
    DecimalIsWord(added);
    DecimalIsWord(deleted);
    ScanIntDecimal(added, "");
    ScanIntDecimal(deleted, "");
    assert a + "" == a && d + "" == d;
    ClassifyThree(a, d, path);
  }

  /** A line made of two bar-free words, the first not starting with `c`, and a
      bar-free rest that starts with a non-space character, all separated by
      tabs, is a numstat line whose counts are its first two words scanned. */
  lemma ClassifyThree(a: string, b: string, c: string)
    requires a != "" && NoSpace(a) && BarFree(a) && a[0] != 'c'
    requires b != "" && NoSpace(b) && BarFree(b)
    requires c != "" && !IsSpace(c[0]) && BarFree(c)
    ensures Classify(a + "\t" + b + "\t" + c)
         == if a == "-" && b == "-" then BinaryNumstat else Numstat(ScanInt(a), ScanInt(b))
  {
    var line := a + "\t" + b + "\t" + c;
    assert line == a + ['\t'] + b + ['\t'] + c;
    JoinedStatLine(a, b, c, '\t');
    var fs := Fields(line);
    assert fs[0] == a && fs[1] == b && |fs| >= 3 by {
      FieldsOfStatLine(a, b, c, '\t');
    }
    ClassifyStat(line);
  }

  /** The numstat line git prints for a binary file, `-<TAB>-<TAB>path`, is a
      binary line, for a path that is non-empty, does not start with white
      space and holds no `|`. */
  lemma ClassifyBinary(path: string)
    requires path != "" && !IsSpace(path[0]) && BarFree(path)
    ensures Classify("-\t-\t" + path) == BinaryNumstat
  {
    var dash := "-";
    assert NoSpace(dash) && BarFree(dash);
    ClassifyThree(dash, dash, path);
    assert dash + "\t" + dash + "\t" + path == "-\t-\t" + path;
  }

  // ---------------------------------------------------------------------------
  // The parsing loop as a fold
  // ---------------------------------------------------------------------------

  /** The record for the cursor's identity after one more numstat line: created
      with zero totals if missing, then one commit and the line's counts added
      (cmd/root.go:194-206). */
  function Record(stats: map<string, Contributor>, c: Cursor, additions: int, deletions: int): map<string, Contributor>
  {
    var key := Key(c.user, c.email);
    var prior := if key in stats then stats[key] else Contributor(c.user, c.email, 0, 0, 0);
    stats[key := prior.(commits := prior.commits + 1,
                        additions := prior.additions + additions,
                        deletions := prior.deletions + deletions)]
  }

  /** One iteration of the loop at cmd/root.go:172-209. */
  function Step(st: State, line: string): State
  {
    match Classify(line)
    case Identity(name, email) => st.(cursor := Cursor(name, email))
    case Numstat(a, d) => if st.cursor.user == "" then st else st.(stats := Record(st.stats, st.cursor, a, d))
    case _ => st
  }

  /** The parser's state after reading `lines` in order. */
  function Run(lines: seq<string>): State
  {
    if lines == [] then Start
    else Step(Run(lines[..|lines| - 1]), lines[|lines| - 1])
  }

  lemma RunPair(lines: seq<string>, x: string, y: string)
    ensures Run(lines + [x, y]) == Step(Step(Run(lines), x), y)
  {
    assert lines + [x, y] == (lines + [x]) + [y];
    RunSnoc(lines, x);
    RunSnoc(lines + [x], y);
  }

  lemma RunSnoc(lines: seq<string>, line: string)
    ensures Run(lines + [line]) == Step(Run(lines), line)
  {
    assert (lines + [line])[..|lines|] == lines;
  }

  /** A line holding `|` only ever moves the cursor. */
  lemma StepIdentity(st: State, line: string)
    requires '|' in line
    ensures var parts := Split(line, '|');
            Step(st, line) == if |parts| == 2 then st.(cursor := Cursor(parts[0], parts[1])) else st
  {
  }

  /** The lines the loop passes over leave the state as it is. */
  lemma StepSkipped(st: State, line: string)
    requires '|' !in line
    requires || line == "" || st.cursor.user == "" || "commit" <= line || |Fields(line)| < 3
             || (Fields(line)[0] == "-" && Fields(line)[1] == "-")
    ensures Step(st, line) == st
  {
  }

  /** An accepted numstat line adds its numbers to the cursor's record. */
  lemma StepNumstat(st: State, line: string)
    requires '|' !in line && line != "" && st.cursor.user != "" && !("commit" <= line)
    requires |Fields(line)| >= 3 && !(Fields(line)[0] == "-" && Fields(line)[1] == "-")
    ensures Step(st, line) == st.(stats := Record(st.stats, st.cursor, ScanInt(Fields(line)[0]), ScanInt(Fields(line)[1])))
  {
  }

  // ---------------------------------------------------------------------------
  // Reference description: accepted numstat lines and per-author tallies
  // ---------------------------------------------------------------------------

  /** The identity given by the last well-formed identity line of `lines`, or
      the empty identity when there is none. */
  function CursorAfter(lines: seq<string>): Cursor
  {
    if lines == [] then Cursor("", "")
    else
      match Classify(lines[|lines| - 1])
      case Identity(name, email) => Cursor(name, email)
      case _ => CursorAfter(lines[..|lines| - 1])
  }

  /** One accepted numstat line and the author it is credited to. */
  datatype Attribution = Attribution(name: string, email: string, additions: int, deletions: int)

  /** The accepted numstat lines of `lines`, in order: every non-binary numstat
      line read while the cursor's name is non-empty. */
  function Attributions(lines: seq<string>): seq<Attribution>
  {
    if lines == [] then []
    else
      var before := lines[..|lines| - 1];
      var c := CursorAfter(before);
      Attributions(before) +
        match Classify(lines[|lines| - 1])
        case Numstat(a, d) => if c.user == "" then [] else [Attribution(c.user, c.email, a, d)]
        case _ => []
  }

  /** The attributions that belong to the identity (name, email). */
  function Matching(atts: seq<Attribution>, name: string, email: string): (m: seq<Attribution>)
    ensures |m| <= |atts|
    ensures forall i :: 0 <= i < |m| ==> m[i].name == name && m[i].email == email
  {
    if atts == [] then []
    else
      var a := atts[|atts| - 1];
      Matching(atts[..|atts| - 1], name, email) + (if a.name == name && a.email == email then [a] else [])
  }

  /** The three figures of a record. */
  datatype Measure = Commits | Additions | Deletions

  function Measured(c: Contributor, m: Measure): int
  {
    match m
    case Commits => c.commits
    case Additions => c.additions
    case Deletions => c.deletions
  }

  /** What one accepted line contributes to a measure. */
  function Contribution(a: Attribution, m: Measure): int
  {
    match m
    case Commits => 1
    case Additions => a.additions
    case Deletions => a.deletions
  }

  function SumContributions(atts: seq<Attribution>, m: Measure): int
  {
    if atts == [] then 0 else SumContributions(atts[..|atts| - 1], m) + Contribution(atts[|atts| - 1], m)
  }

  /** The record an identity should have: its number of accepted numstat lines
      and the sums of their two counts. */
  function Tally(atts: seq<Attribution>, name: string, email: string): Contributor
  {
    var m := Matching(atts, name, email);
    Contributor(name, email, |m|, SumContributions(m, Additions), SumContributions(m, Deletions))
  }

  /** The record stored under the key of (n, e) exists exactly when (n, e) has
      an accepted line, and then it is the tally of (n, e). */
  ghost predicate TalliedAt(stats: map<string, Contributor>, atts: seq<Attribution>, n: string, e: string)
  {
    && (Key(n, e) in stats <==> Matching(atts, n, e) != [])
    && (Key(n, e) in stats ==> stats[Key(n, e)] == Tally(atts, n, e))
  }

  /** The records never hold `|` in their identity and are stored under their own key. */
  ghost predicate WellKeyed(stats: map<string, Contributor>)
  {
    forall k :: k in stats ==> BarFree(stats[k].name) && BarFree(stats[k].email) && KeyOf(stats[k]) == k
  }

  /** `stats` is exactly the table of tallies of `atts`: one record per identity
      that has an accepted line, stored under that identity's key. */
  ghost predicate Tallied(stats: map<string, Contributor>, atts: seq<Attribution>)
  {
    && WellKeyed(stats)
    && (forall n, e :: BarFree(n) && BarFree(e) ==> TalliedAt(stats, atts, n, e))
  }

  // ---------------------------------------------------------------------------
  // Properties of the parsing loop
  // ---------------------------------------------------------------------------

  /** The cursor of the loop is the last identity read, and it never holds `|`. */
  lemma {:induction false} RunCursor(lines: seq<string>)
    ensures Run(lines).cursor == CursorAfter(lines)
    ensures BarFree(CursorAfter(lines).user) && BarFree(CursorAfter(lines).email)
  {
    if lines != [] {
      RunCursor(lines[..|lines| - 1]);
    }
  }

  lemma MatchingSnoc(atts: seq<Attribution>, a: Attribution, name: string, email: string)
    ensures Matching(atts + [a], name, email)
         == Matching(atts, name, email) + (if a.name == name && a.email == email then [a] else [])
  {
    assert (atts + [a])[..|atts|] == atts;
  }

  lemma SumContributionsSnoc(atts: seq<Attribution>, a: Attribution, m: Measure)
    ensures SumContributions(atts + [a], m) == SumContributions(atts, m) + Contribution(a, m)
  {
    assert (atts + [a])[..|atts|] == atts;
  }


  lemma TalliedAtRecord(stats: map<string, Contributor>, atts: seq<Attribution>, c: Cursor, add: int, del: int,
                        n: string, e: string)
    requires TalliedAt(stats, atts, n, e)
    requires BarFree(c.user) && BarFree(c.email) && BarFree(n) && BarFree(e)
    ensures TalliedAt(Record(stats, c, add, del), atts + [Attribution(c.user, c.email, add, del)], n, e)
  {
    var a := Attribution(c.user, c.email, add, del);
    var key := Key(c.user, c.email);
    MatchingSnoc(atts, a, n, e);
    KeyInjective(n, e, c.user, c.email);
    if n == c.user && e == c.email {
      var m := Matching(atts, n, e);
      SumContributionsSnoc(m, a, Additions);
      SumContributionsSnoc(m, a, Deletions);
      var prior := if key in stats then stats[key] else Contributor(n, e, 0, 0, 0);
      assert prior == Tally(atts, n, e);
      assert Record(stats, c, add, del)[key] == Tally(atts + [a], n, e);
    } else {
      assert Matching(atts + [a], n, e) == Matching(atts, n, e);
    }
  }

  /** Adding an attribution for the cursor turns the tallies of `atts` into those of `atts + [a]`. */
  lemma TalliedRecord(stats: map<string, Contributor>, atts: seq<Attribution>, c: Cursor, add: int, del: int)
    requires Tallied(stats, atts)
    requires BarFree(c.user) && BarFree(c.email)
    ensures Tallied(Record(stats, c, add, del), atts + [Attribution(c.user, c.email, add, del)])
  {
    var stats' := Record(stats, c, add, del);
    forall n, e | BarFree(n) && BarFree(e)
      ensures TalliedAt(stats', atts + [Attribution(c.user, c.email, add, del)], n, e)
    {
      TalliedAtRecord(stats, atts, c, add, del, n, e);
    }
  }

  /** The table built by the loop is the table of tallies of the accepted lines:
      each record's name and email are the identity it is stored under, its
      commits are the number of accepted numstat lines of that identity, and its
      additions and deletions are the sums of their first and second numbers. */
  lemma {:induction false} RunTallied(lines: seq<string>)
    ensures Tallied(Run(lines).stats, Attributions(lines))
  {
    if lines != [] {
      var before := lines[..|lines| - 1];
      RunTallied(before);
      RunCursor(before);
      var st := Run(before);
      var k := Classify(lines[|lines| - 1]);
      if k.Numstat? && st.cursor.user != "" {
        var c := st.cursor;
        assert Run(lines).stats == Record(st.stats, c, k.additions, k.deletions);
        assert Attributions(lines) == Attributions(before) + [Attribution(c.user, c.email, k.additions, k.deletions)];
        TalliedRecord(st.stats, Attributions(before), c, k.additions, k.deletions);
      } else {
        assert Run(lines).stats == st.stats;
        assert Attributions(lines) == Attributions(before);
      }
    }
  }

  lemma RunWellKeyed(lines: seq<string>)
    ensures WellKeyed(Run(lines).stats)
  {
    RunTallied(lines);
  }

  /** Every accepted line has a bar-free identity. */
  lemma {:induction false} AttributionsBarFree(lines: seq<string>)
    ensures forall i :: 0 <= i < |Attributions(lines)| ==>
              BarFree(Attributions(lines)[i].name) && BarFree(Attributions(lines)[i].email)
  {
    if lines != [] {
      AttributionsBarFree(lines[..|lines| - 1]);
      RunCursor(lines[..|lines| - 1]);
    }
  }

  lemma MatchingOfMember(atts: seq<Attribution>, i: nat)
    requires i < |atts|
    ensures Matching(atts, atts[i].name, atts[i].email) != []
    decreases |atts|
  {
    var a := atts[i];
    if i < |atts| - 1 {
      MatchingOfMember(atts[..|atts| - 1], i);
    }
  }

  lemma TalliedEmpty(stats: map<string, Contributor>, atts: seq<Attribution>)
    requires Tallied(stats, atts)
    requires forall i :: 0 <= i < |atts| ==> BarFree(atts[i].name) && BarFree(atts[i].email)
    ensures stats == map[] <==> atts == []
  {
    if atts != [] {
      MatchingOfMember(atts, 0);
      assert TalliedAt(stats, atts, atts[0].name, atts[0].email);
    }
    if stats != map[] {
      var k :| k in stats;
      assert TalliedAt(stats, atts, stats[k].name, stats[k].email);
    }
  }

  /** The report is empty exactly when no numstat line was accepted (the
      "No changes found" branch of cmd/root.go:225-228). */
  lemma NoRecordsIffNoAcceptedLines(lines: seq<string>)
    ensures Run(lines).stats == map[] <==> Attributions(lines) == []
  {
    RunTallied(lines);
    AttributionsBarFree(lines);
    TalliedEmpty(Run(lines).stats, Attributions(lines));
  }

  // ---------------------------------------------------------------------------
  // What one line does
  // ---------------------------------------------------------------------------

  /** A line holding `|` never touches a record; with exactly two `|`-separated
      parts it sets both cursor fields to them verbatim, otherwise it leaves the
      cursor alone (cmd/root.go:173-179). */
  lemma IdentityLine(lines: seq<string>, line: string)
    requires '|' in line
    ensures Run(lines + [line]).stats == Run(lines).stats
    ensures Attributions(lines + [line]) == Attributions(lines)
    ensures var parts := Split(line, '|');
            Run(lines + [line]).cursor == if |parts| == 2 then Cursor(parts[0], parts[1]) else Run(lines).cursor
  {
    RunSnoc(lines, line);
    assert (lines + [line])[..|lines|] == lines;
  }

  /** A numstat line whose path holds one `|` is read as an identity line
      (cmd/root.go:173-178): its counts are dropped, and the cursor becomes the
      text before the `|` (the two counts and the start of the path) and the
      text after it. Later numstat lines are credited to that identity. */
  lemma BarPathIsIdentity(lines: seq<string>, added: nat, deleted: nat, p: string, q: string)
    requires BarFree(p) && BarFree(q)
    ensures Classify(NumstatText(added, deleted, p + "|" + q)) == Identity(NumstatText(added, deleted, p), q)
    ensures Run(lines + [NumstatText(added, deleted, p + "|" + q)]).stats == Run(lines).stats
    ensures Run(lines + [NumstatText(added, deleted, p + "|" + q)]).cursor == Cursor(NumstatText(added, deleted, p), q)
    ensures Attributions(lines + [NumstatText(added, deleted, p + "|" + q)]) == Attributions(lines)
  {
    var name := NumstatText(added, deleted, p);
    var line := NumstatText(added, deleted, p + "|" + q);
    assert line == Key(name, q);
    NumstatBarFree(added, deleted, p);
    ClassifyIdentity(name, q);
    SplitKey(name, q);
    IdentityLine(lines, line);
  }

  /** The numstat line of a file whose name is all white space has only two
      fields, so the loop passes over it and its counts are lost
      (cmd/root.go:182-183). */
  lemma SpacePathDropped(lines: seq<string>, added: nat, deleted: nat, p: string)
    requires forall i :: 0 <= i < |p| ==> IsSpace(p[i])
    ensures Classify(NumstatText(added, deleted, p)) == Other
    ensures Run(lines + [NumstatText(added, deleted, p)]) == Run(lines)
    ensures Attributions(lines + [NumstatText(added, deleted, p)]) == Attributions(lines)
  {
    var line := NumstatText(added, deleted, p);
    SpacePathLine(added, deleted, p);
    IgnoredLine(lines, line);
  }

  lemma SpacePathLine(added: nat, deleted: nat, p: string)
    requires forall i :: 0 <= i < |p| ==> IsSpace(p[i])
    ensures BarFree(NumstatText(added, deleted, p)) && |Fields(NumstatText(added, deleted, p))| == 2
  {
    var a, d := Decimal(added), Decimal(deleted);
    DecimalIsWord(added);
    DecimalIsWord(deleted);
    assert NumstatText(added, deleted, p) == a + ['\t'] + d + ['\t'] + p;
    FieldsOfShortStatLine(a, d, p, '\t');
    assert BarFree(p) by {
      forall i | 0 <= i < |p| ensures p[i] != '|' {
        assert IsSpace(p[i]);
      }
    }
    NumstatBarFree(added, deleted, p);
  }

  /** Blank lines, lines starting with `commit`, lines with fewer than three
      fields, binary `- -` lines, and any line read before a non-empty author
      name is set change nothing (cmd/root.go:180-187). */
  lemma IgnoredLine(lines: seq<string>, line: string)
    requires '|' !in line
    requires || line == ""
             || "commit" <= line
             || |Fields(line)| < 3
             || (Fields(line)[0] == "-" && Fields(line)[1] == "-")
             || CursorAfter(lines).user == ""
    ensures Run(lines + [line]) == Run(lines)
    ensures Attributions(lines + [line]) == Attributions(lines)
  {
    RunSnoc(lines, line);
    RunCursor(lines);
    assert (lines + [line])[..|lines|] == lines;
  }

  /** An accepted numstat line adds exactly one commit and its two numbers to
      exactly one record, the cursor's, creating it if needed; every other
      record is unchanged (cmd/root.go:182-206). */
  lemma AcceptedLine(lines: seq<string>, line: string)
    requires '|' !in line && line != "" && !("commit" <= line)
    requires |Fields(line)| >= 3 && !(Fields(line)[0] == "-" && Fields(line)[1] == "-")
    requires CursorAfter(lines).user != ""
    ensures var c := CursorAfter(lines);
            var key := Key(c.user, c.email);
            var before, after := Run(lines).stats, Run(lines + [line]).stats;
            var fields := Fields(line);
            && after.Keys == before.Keys + {key}
            && after[key].name == c.user && after[key].email == c.email
            && after[key].commits == (if key in before then before[key].commits else 0) + 1
            && after[key].additions == (if key in before then before[key].additions else 0) + ScanInt(fields[0])
            && after[key].deletions == (if key in before then before[key].deletions else 0) + ScanInt(fields[1])
            && forall k :: k in before && k != key ==> after[k] == before[k]
  {
    var fields := Fields(line);
    var add, del := ScanInt(fields[0]), ScanInt(fields[1]);
    assert Classify(line) == Numstat(add, del);
    var st := Run(lines);
    RunCursor(lines);
    RunWellKeyed(lines);
    assert Run(lines + [line]).stats == Record(st.stats, st.cursor, add, del) by {
      RunSnoc(lines, line);
    }
    RecordEffect(st.stats, st.cursor, add, del);
  }

  /** What `Record` does to the table: the cursor's record, and no other, gains a commit and the two numbers. */
  lemma RecordEffect(stats: map<string, Contributor>, c: Cursor, add: int, del: int)
    requires WellKeyed(stats) && BarFree(c.user) && BarFree(c.email)
    ensures var key := Key(c.user, c.email);
            var after := Record(stats, c, add, del);
            && after.Keys == stats.Keys + {key}
            && after[key].name == c.user && after[key].email == c.email
            && after[key].commits == (if key in stats then stats[key].commits else 0) + 1
            && after[key].additions == (if key in stats then stats[key].additions else 0) + add
            && after[key].deletions == (if key in stats then stats[key].deletions else 0) + del
            && forall k :: k in stats && k != key ==> after[k] == stats[k]
  {
    var key := Key(c.user, c.email);
    if key in stats {
      KeyInjective(stats[key].name, stats[key].email, c.user, c.email);
    }
  }

  /** Numstat lines before the first identity line are never counted. */
  lemma {:induction false} NoIdentityNoRecords(lines: seq<string>)
    requires forall i :: 0 <= i < |lines| ==> !Classify(lines[i]).Identity?
    ensures Run(lines) == Start
    ensures Attributions(lines) == []
  {
    if lines != [] {
      NoIdentityNoRecords(lines[..|lines| - 1]);
      RunCursor(lines[..|lines| - 1]);
      assert !Classify(lines[|lines| - 1]).Identity?;
    }
  }

  // ---------------------------------------------------------------------------
  // Totals over the whole table
  // ---------------------------------------------------------------------------

  ghost function AnyKey(stats: map<string, Contributor>): (k: string)
    requires stats != map[]
    ensures k in stats
  {
    var k :| k in stats; k
  }

  /** The sum of a measure over all records of the table. */
  ghost function SumOver(stats: map<string, Contributor>, m: Measure): int
    decreases |stats|
  {
    if stats == map[] then 0
    else
      var k := AnyKey(stats);
      assert |(stats - {k}).Keys| == |stats.Keys - {k}| == |stats.Keys| - 1;
      Measured(stats[k], m) + SumOver(stats - {k}, m)
  }

  /** The sum does not depend on which record is taken out first. */
  lemma {:induction false} SumOverPick(stats: map<string, Contributor>, k: string, m: Measure)
    requires k in stats
    ensures SumOver(stats, m) == Measured(stats[k], m) + SumOver(stats - {k}, m)
    decreases |stats|
  {
    var j := AnyKey(stats);
    if j != k {
      assert |(stats - {j}).Keys| == |stats.Keys - {j}| == |stats.Keys| - 1;
      assert |(stats - {k}).Keys| == |stats.Keys - {k}| == |stats.Keys| - 1;
      SumOverPick(stats - {j}, k, m);
      SumOverPick(stats - {k}, j, m);
      assert stats - {j} - {k} == stats - {k} - {j};
    }
  }

  lemma SumOverRecord(stats: map<string, Contributor>, c: Cursor, add: int, del: int, m: Measure)
    ensures SumOver(Record(stats, c, add, del), m)
         == SumOver(stats, m) + Contribution(Attribution(c.user, c.email, add, del), m)
  {
    var key := Key(c.user, c.email);
    var stats' := Record(stats, c, add, del);
    SumOverPick(stats', key, m);
    assert stats' - {key} == stats - {key};
    if key in stats {
      SumOverPick(stats, key, m);
    } else {
      assert stats - {key} == stats;
    }
  }

  /** Recording an accepted line adds its contribution to both sides of a
      table total that already matches its attributions. */
  lemma RecordTotals(stats: map<string, Contributor>, atts: seq<Attribution>, c: Cursor, add: int, del: int, m: Measure)
    requires SumOver(stats, m) == SumContributions(atts, m)
    ensures SumOver(Record(stats, c, add, del), m)
         == SumContributions(atts + [Attribution(c.user, c.email, add, del)], m)
  {
    var at := Attribution(c.user, c.email, add, del);
    SumOverRecord(stats, c, add, del, m);
    SumContributionsSnoc(atts, at, m);
  }

  /** Summed over the whole table, commits are the number of accepted numstat
      lines (not the number of distinct commits), and additions and deletions
      are the sums of the accepted lines' two numbers. */
  lemma {:induction false} RunTotals(lines: seq<string>, m: Measure)
    ensures SumOver(Run(lines).stats, m) == SumContributions(Attributions(lines), m)
  {
    if lines != [] {
      var before := lines[..|lines| - 1];
      RunTotals(before, m);
      RunCursor(before);
      var st := Run(before);
      var atts := Attributions(before);
      var k := Classify(lines[|lines| - 1]);
      if k.Numstat? && st.cursor.user != "" {
        var c := st.cursor;
        var at := Attribution(c.user, c.email, k.additions, k.deletions);
        assert Run(lines).stats == Record(st.stats, c, k.additions, k.deletions);
        assert Attributions(lines) == atts + [at];
        RecordTotals(st.stats, atts, c, k.additions, k.deletions, m);
      } else {
        assert Run(lines).stats == st.stats;
        assert Attributions(lines) == atts;
      }
    }
  }

  lemma {:induction false} CommitSum(atts: seq<Attribution>)
    ensures SumContributions(atts, Commits) == |atts|
  {
    if atts != [] {
      CommitSum(atts[..|atts| - 1]);
    }
  }

  /** The sum of all records' commits equals the number of accepted numstat lines. */
  lemma CommitsCountAcceptedLines(lines: seq<string>)
    ensures SumOver(Run(lines).stats, Commits) == |Attributions(lines)|
  {
    RunTotals(lines, Commits);
    CommitSum(Attributions(lines));
  }

  // ---------------------------------------------------------------------------
  // Worked example
  // ---------------------------------------------------------------------------

  /** A commit by `c` that changes one text file, whose path is non-empty, does
      not start with white space and holds no `|`: its identity line, then its
      numstat line. */
  lemma CommitBlock(lines: seq<string>, c: Cursor, added: nat, deleted: nat, path: string)
    requires c.user != "" && BarFree(c.user) && BarFree(c.email)
    requires added <= MaxInt64 && deleted <= MaxInt64
    requires path != "" && !IsSpace(path[0]) && BarFree(path)
    ensures Run(lines + [Key(c.user, c.email), NumstatText(added, deleted, path)])
         == State(c, Record(Run(lines).stats, c, added, deleted))
  {
    ClassifyIdentity(c.user, c.email);
    ClassifyNumstat(added, deleted, path);
    RunPair(lines, Key(c.user, c.email), NumstatText(added, deleted, path));
  }

  /** The first two commits of the example log: author `a` changes file `f`
      (10 lines added, 2 removed), then author `b` changes file `g` (1 added,
      1 removed). */
  function ExampleOpening(a: Cursor, b: Cursor, f: string, g: string): seq<string>
  {
    [Key(a.user, a.email), NumstatText(10, 2, f)] + [Key(b.user, b.email), NumstatText(1, 1, g)]
  }

  /** The example log: the opening, then a second commit by `a` that adds 5
      lines to `f`. */
  function ExampleLog(a: Cursor, b: Cursor, f: string, g: string): seq<string>
  {
    ExampleOpening(a, b, f, g) + [Key(a.user, a.email), NumstatText(5, 0, f)]
  }

  /** After the opening each author has one record holding one commit. */
  lemma ExampleOpeningTotals(a: Cursor, b: Cursor, f: string, g: string)
    requires a.user != "" && b.user != "" && a != b
    requires BarFree(a.user) && BarFree(a.email) && BarFree(b.user) && BarFree(b.email)
    requires f != "" && NoSpace(f) && BarFree(f) && g != "" && NoSpace(g) && BarFree(g)
    ensures Run(ExampleOpening(a, b, f, g)).stats
         == map[Key(a.user, a.email) := Contributor(a.user, a.email, 1, 10, 2),
                Key(b.user, b.email) := Contributor(b.user, b.email, 1, 1, 1)]
  {
    var ka, kb := Key(a.user, a.email), Key(b.user, b.email);
    KeyInjective(a.user, a.email, b.user, b.email);
    var p2 := [ka, NumstatText(10, 2, f)];
    CommitBlock([], a, 10, 2, f);
    assert [] + p2 == p2;
    RecordFirst(map[], a, 10, 2);
    CommitBlock(p2, b, 1, 1, g);
    RecordFirst(map[ka := Contributor(a.user, a.email, 1, 10, 2)], b, 1, 1);
  }

  /** On the whole log `a` has 2 commits, 15 additions and 2 deletions, and `b`
      has 1 commit, 1 addition and 1 deletion. */
  lemma ExampleTotals(a: Cursor, b: Cursor, f: string, g: string)
    requires a.user != "" && b.user != "" && a != b
    requires BarFree(a.user) && BarFree(a.email) && BarFree(b.user) && BarFree(b.email)
    requires f != "" && NoSpace(f) && BarFree(f) && g != "" && NoSpace(g) && BarFree(g)
    ensures Run(ExampleLog(a, b, f, g)).stats
         == map[Key(a.user, a.email) := Contributor(a.user, a.email, 2, 15, 2),
                Key(b.user, b.email) := Contributor(b.user, b.email, 1, 1, 1)]
  {
    var opening := ExampleOpening(a, b, f, g);
    ExampleOpeningTotals(a, b, f, g);
    CommitBlock(opening, a, 5, 0, f);
    ExampleLastRecord(a, b);
  }

  /** The table after the opening, updated by `a`'s second commit. */
  lemma ExampleLastRecord(a: Cursor, b: Cursor)
    requires a != b && BarFree(a.user) && BarFree(a.email) && BarFree(b.user) && BarFree(b.email)
    ensures Record(map[Key(a.user, a.email) := Contributor(a.user, a.email, 1, 10, 2),
                       Key(b.user, b.email) := Contributor(b.user, b.email, 1, 1, 1)], a, 5, 0)
         == map[Key(a.user, a.email) := Contributor(a.user, a.email, 2, 15, 2),
                Key(b.user, b.email) := Contributor(b.user, b.email, 1, 1, 1)]
  {
    KeyInjective(a.user, a.email, b.user, b.email);
  }

  /** The first record of an identity holds one commit and the line's numbers. */
  lemma RecordFirst(stats: map<string, Contributor>, c: Cursor, additions: int, deletions: int)
    requires Key(c.user, c.email) !in stats
    ensures Record(stats, c, additions, deletions)
         == stats[Key(c.user, c.email) := Contributor(c.user, c.email, 1, additions, deletions)]
  {
  }


}
