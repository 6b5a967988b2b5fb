/** Which old log files a cleaning pass deletes (log/log_file_monitor.go). */
module Cleanup {
  const WORD := 0x1_0000_0000_0000_0000

  datatype File = File(name: string, size: nat, modifyTime: nat)

  predicate Less(a: File, b: File) {
    if a.modifyTime == b.modifyTime then a.size > b.size else a.modifyTime < b.modifyTime
  }

  /** `a` is older than `b`, or as old and not smaller. */
  predicate OlderOrLarger(a: File, b: File) {
    a.modifyTime < b.modifyTime || (a.modifyTime == b.modifyTime && a.size >= b.size)
  }

  /** Older files first; among files of one second, larger ones first. */
  lemma LessIsStrictWeakOrder(a: File, b: File, c: File)
    ensures !Less(a, a)
    ensures Less(a, b) && Less(b, c) ==> Less(a, c)
    ensures !Less(a, b) && !Less(b, c) ==> !Less(a, c)
    ensures !Less(b, a) <==> OlderOrLarger(a, b)
  {
  }

  ghost predicate Sorted(s: seq<File>) {
    forall i, j | 0 <= i < j < |s| :: !Less(s[j], s[i])
  }

  /** strings.Contains. */
  predicate Contains(s: string, part: string) {
    part <= s || (s != "" && Contains(s[1..], part))
  }

  /** The files of a directory that belong to the log `live` and are not the live file. */
  function Candidates(files: seq<File>, live: string): seq<File> {
    if files == [] then []
    else
      var before, f := Candidates(files[..|files| - 1], live), files[|files| - 1];
      if f.name != live && Contains(f.name, live) then before + [f] else before
  }

  /** `part` stands somewhere in `s`. */
  lemma {:induction false} ContainsExactly(s: string, part: string)
    ensures Contains(s, part) <==> exists i | 0 <= i <= |s| :: part <= s[i..]
  {
    assert s[0..] == s;
    if s != "" {
      ContainsExactly(s[1..], part);
      assert forall i | 0 <= i <= |s| - 1 :: s[1..][i..] == s[i + 1..];
      if exists i | 0 <= i <= |s| :: part <= s[i..] {
        var i :| 0 <= i <= |s| && part <= s[i..];
        if i > 0 {
          assert part <= s[1..][i - 1..];
        }
      }
      if exists i | 0 <= i <= |s[1..]| :: part <= s[1..][i..] {
        var i :| 0 <= i <= |s[1..]| && part <= s[1..][i..];
        assert part <= s[i + 1..];
      }
    }
  }

  /** The candidates are exactly the files whose name contains the live name and is another one,
      each as often as the directory lists it. */
  lemma {:induction false} CandidatesExactly(files: seq<File>, live: string, f: File)
    ensures multiset(Candidates(files, live))[f]
      == if f.name != live && Contains(f.name, live) then multiset(files)[f] else 0
  {
    if files != [] {
      var before, last := files[..|files| - 1], files[|files| - 1];
      CandidatesExactly(before, live, f);
      assert files == before + [last];
      FilesAdd(before, last, f);
      FilesAdd(Candidates(before, live), last, f);
    }
  }

  lemma FilesAdd(s: seq<File>, last: File, f: File)
    ensures multiset(s + [last])[f] == multiset(s)[f] + if last == f then 1 else 0
  {
    assert multiset(s + [last]) == multiset(s) + multiset([last]);
  }

  /** The sum of the sizes. */
  function Total(s: seq<File>): nat {
    if s == [] then 0 else Total(s[..|s| - 1]) + s[|s| - 1].size
  }

  // A sorted rearrangement, as the library's sort returns one.
  method Sort(s: seq<File>) returns (r: seq<File>)
    ensures multiset(r) == multiset(s) && Sorted(r)
  {
    r := [];
    for i := 0 to |s|
      invariant multiset(r) == multiset(s[..i]) && Sorted(r)
    {
      var k := |r|;
      while k > 0 && Less(s[i], r[k - 1])
        invariant 0 <= k <= |r| && forall j | k <= j < |r| :: Less(s[i], r[j])
      {
        k := k - 1;
      }
      assert s[..i + 1] == s[..i] + [s[i]];
      Inserted(r, k, s[i]);
      InsertSorted(r, k, s[i]);
      r := r[..k] + [s[i]] + r[k..];
    }
    assert s[..|s|] == s;
  }

  lemma Inserted(r: seq<File>, k: nat, f: File)
    requires k <= |r|
    ensures multiset(r[..k] + [f] + r[k..]) == multiset(r) + multiset{f}
  {
    assert r == r[..k] + r[k..];
  }

  lemma InsertSorted(r: seq<File>, k: nat, f: File)
    requires Sorted(r) && k <= |r|
    requires forall j | k <= j < |r| :: Less(f, r[j])
    requires k > 0 ==> !Less(f, r[k - 1])
    ensures Sorted(r[..k] + [f] + r[k..])
  {
    var t := r[..k] + [f] + r[k..];
    forall i, j | 0 <= i < j < |t| ensures !Less(t[j], t[i]) {
      if i < k && j == k {
        assert i < k - 1 ==> !Less(r[k - 1], r[i]);
      }
    }
  }

  /** The running total as a 64-bit word. */
  function Released(s: seq<File>): nat {
    Total(s) % WORD
  }

  lemma ReleasedStep(s: seq<File>, f: File)
    ensures Released(s + [f]) == (Released(s) + f.size) % WORD
  {
    assert (s + [f])[..|s|] == s;
    assert (Total(s) + f.size) % WORD == (Total(s) % WORD + f.size) % WORD;
  }

  /** Deleting stops after the first file whose running total reaches the target. */
  ghost predicate StopsAfter(s: seq<File>, target: nat, k: nat) {
    && k <= |s|
    && (s != [] ==> k > 0)
    && (forall i | 0 < i < k :: Released(s[..i]) < target)
    && (k < |s| ==> Released(s[..k]) >= target)
  }

  method FindCandidates(files: seq<File>, live: string) returns (cleanFiles: seq<File>)
    ensures cleanFiles == Candidates(files, live)
  {
    cleanFiles := [];
    for i := 0 to |files|
      invariant cleanFiles == Candidates(files[..i], live)
    {
      assert files[..i + 1][..i] == files[..i];
      if files[i].name != live && Contains(files[i].name, live) {
        cleanFiles := cleanFiles + [files[i]];
      }
    }
    assert files[..|files|] == files;
  }

  method DeleteUntil(cleanFiles: seq<File>, target: nat) returns (deleted: seq<File>)
    ensures deleted <= cleanFiles && StopsAfter(cleanFiles, target, |deleted|)
  {
    deleted := [];
    var releasedSize := 0;
    for i := 0 to |cleanFiles|
      invariant deleted == cleanFiles[..i] && releasedSize == Released(deleted)
      invariant forall j | 0 < j <= i :: Released(cleanFiles[..j]) < target
    {
      deleted := deleted + [cleanFiles[i]];
      releasedSize := (releasedSize + cleanFiles[i].size) % WORD;
      ReleasedStep(cleanFiles[..i], cleanFiles[i]);
      assert deleted == cleanFiles[..i + 1];
      if releasedSize >= target {
        break;
      }
    }
  }

  ghost predicate IsSorting(sorted: seq<File>, s: seq<File>) {
    multiset(sorted) == multiset(s) && Sorted(sorted)
  }

  method CleanPath(files: seq<File>, live: string, target: nat) returns (deleted: seq<File>)
    ensures exists sorted ::
      IsSorting(sorted, Candidates(files, live)) && deleted <= sorted && StopsAfter(sorted, target, |deleted|)
  {
    var cleanFiles := FindCandidates(files, live);
    cleanFiles := Sort(cleanFiles);
    assert IsSorting(cleanFiles, Candidates(files, live));
    deleted := DeleteUntil(cleanFiles, target);
  }

  // ---- a round over all monitored logs ----

  // A monitored log: the name of its live file, and the directory.
  datatype Log = Log(name: string, path: string)

  /** The passes of a round: for each name, the last directory it is monitored in among those
      that are too full. */
  function Passes(monitored: seq<Log>, full: set<string>): map<string, string> {
    if monitored == [] then map[]
    else
      var before, m := Passes(monitored[..|monitored| - 1], full), monitored[|monitored| - 1];
      if m.path in full then before[m.name := m.path] else before
  }

  method MatchPaths(monitored: seq<Log>, full: set<string>) returns (cleanPath: map<string, string>)
    ensures cleanPath == Passes(monitored, full)
  {
    cleanPath := map[];
    for i := 0 to |monitored|
      invariant cleanPath == Passes(monitored[..i], full)
    {
      assert monitored[..i + 1][..i] == monitored[..i];
      if monitored[i].path in full {
        cleanPath := cleanPath[monitored[i].name := monitored[i].path];
      }
    }
    assert monitored[..|monitored|] == monitored;
  }

  /** Log number `i` is the last one of its name that is monitored in a full directory. */
  predicate LastFull(monitored: seq<Log>, full: set<string>, i: nat)
    requires i < |monitored|
  {
    && monitored[i].path in full
    && forall j | i < j < |monitored| && monitored[j].name == monitored[i].name :: monitored[j].path !in full
  }

  /** A round passes exactly over those, so every pass is over a full directory and for a log
      monitored there. */
  lemma {:induction false} PassesExactly(monitored: seq<Log>, full: set<string>, name: string, path: string)
    ensures name in Passes(monitored, full) && Passes(monitored, full)[name] == path
      <==> exists i | 0 <= i < |monitored| :: monitored[i] == Log(name, path) && LastFull(monitored, full, i)
  {
    if monitored != [] {
      var n := |monitored| - 1;
      var before, m := monitored[..n], monitored[n];
      PassesExactly(before, full, name, path);
      assert monitored == before + [m];
      if m.path in full && m.name == name {
        assert LastFull(monitored, full, n);
        assert forall i | 0 <= i < n && monitored[i].name == name :: !LastFull(monitored, full, i);
      } else {
        forall i | 0 <= i < n && before[i] == Log(name, path)
          ensures LastFull(before, full, i) <==> LastFull(monitored, full, i)
        {
          assert LastFull(before, full, i) && m.name == name ==> m.path !in full;
        }
      }
    }
  }

  /** Whatever the directories hold, no pass of the round has a monitored live file among the
      files it may delete. */
  ghost predicate LiveFilesSafe(monitored: seq<Log>, passes: map<string, string>) {
    forall name, files: seq<File>, f: File | name in passes && f in Candidates(files, name) ::
      Log(f.name, passes[name]) !in monitored
  }

  /** No monitored name of a directory properly contains the name of a pass over it. */
  ghost predicate NamesApart(monitored: seq<Log>, passes: map<string, string>) {
    forall name, m: Log | name in passes && m in monitored ::
      m.path == passes[name] && m.name != name ==> !Contains(m.name, name)
  }

  /** Every live file survives every round exactly when no monitored name of a cleaned directory
      properly contains another one that is cleaned there. */
  lemma LiveFilesSafeExactly(monitored: seq<Log>, full: set<string>)
    ensures LiveFilesSafe(monitored, Passes(monitored, full)) <==> NamesApart(monitored, Passes(monitored, full))
  {
    var passes := Passes(monitored, full);
    if NamesApart(monitored, passes) {
      forall name, files: seq<File>, f: File | name in passes && f in Candidates(files, name)
        ensures Log(f.name, passes[name]) !in monitored
      {
        OnlyCandidates(files, name);
      }
    }
    if LiveFilesSafe(monitored, passes) {
      forall name, m: Log | name in passes && m in monitored
        ensures m.path == passes[name] && m.name != name ==> !Contains(m.name, name)
      {
        var f := File(m.name, 0, 0);
        assert [f][..0] == [];
        assert Contains(m.name, name) && m.name != name ==> f in Candidates([f], name);
        assert m == Log(f.name, m.path);
      }
    }
  }

  /** Of two logs in one full directory, "a" and "ab", the pass for the first may delete the
      live file of the second. */
  lemma LiveFileAtRisk(path: string)
    ensures !LiveFilesSafe([Log("a", path), Log("ab", path)], Passes([Log("a", path), Log("ab", path)], {path}))
  {
    var monitored := [Log("a", path), Log("ab", path)];
    assert monitored[..1] == [Log("a", path)] && monitored[..1][..0] == [];
    var passes := Passes(monitored, {path});
    assert Passes([], {path}) == map[] && Passes(monitored[..1], {path}) == map["a" := path];
    assert "a" in passes && passes["a"] == path;
    assert "a" <= "ab" && Contains("ab", "a");
    assert monitored[1] in monitored;
    LiveFilesSafeExactly(monitored, {path});
  }

  lemma {:induction false} TotalOfPrefix(s: seq<File>, k: nat)
    requires k <= |s|
    ensures Total(s[..k]) <= Total(s)
    decreases |s|
  {
    if k < |s| {
      assert s[..|s| - 1][..k] == s[..k];
      TotalOfPrefix(s[..|s| - 1], k);
    } else {
      assert s[..k] == s;
    }
  }

  lemma {:induction false} OnlyCandidates(files: seq<File>, live: string)
    ensures forall f | f in Candidates(files, live) :: f.name != live && Contains(f.name, live) && f in files
  {
    if files != [] {
      OnlyCandidates(files[..|files| - 1], live);
    }
  }

  /** What a pass deletes: never the live file, never a file while an older one is kept, and,
      as long as all sizes together fit a word, the shortest non-empty prefix of the
      candidates, oldest first, that reaches the target, or all of them. */
  lemma DeletesOldestEnough(files: seq<File>, live: string, target: nat, sorted: seq<File>, k: nat)
    requires IsSorting(sorted, Candidates(files, live))
    requires StopsAfter(sorted, target, k)
    ensures forall i | 0 <= i < k :: sorted[i].name != live && sorted[i] in files
    ensures forall i, j | 0 <= i < k <= j < |sorted| ::
      || sorted[i].modifyTime < sorted[j].modifyTime
      || (sorted[i].modifyTime == sorted[j].modifyTime && sorted[i].size >= sorted[j].size)
    ensures sorted != [] ==> k > 0
    ensures Total(sorted) < 0x1_0000_0000_0000_0000 ==>
      && (forall i | 0 < i < k :: Total(sorted[..i]) < target)
      && (k < |sorted| ==> Total(sorted[..k]) >= target)
  {
    OnlyCandidates(files, live);
    forall i, j | 0 <= i < k <= j < |sorted|
      ensures sorted[i].modifyTime < sorted[j].modifyTime
        || (sorted[i].modifyTime == sorted[j].modifyTime && sorted[i].size >= sorted[j].size)
    {
      LessIsStrictWeakOrder(sorted[i], sorted[j], sorted[j]);
    }
    forall i | 0 <= i < k ensures sorted[i].name != live && sorted[i] in files {
      assert sorted[i] in multiset(sorted);
    }
    if Total(sorted) < WORD {
      NoWrap(sorted);
    }
  }

  lemma NoWrap(s: seq<File>)
    requires Total(s) < WORD
    ensures forall i | 0 <= i <= |s| :: Released(s[..i]) == Total(s[..i])
  {
    forall i | 0 <= i <= |s| ensures Released(s[..i]) == Total(s[..i]) {
      TotalOfPrefix(s, i);
    }
  }
}
