/** The naming resolver of lib/shared.ts: `getUniqueNoteName` turns a title into a
    `.md` file name whose final path segment does not clash with the final path
    segment of any existing entry, adding the suffixes ` 1`, ` 2`, ... in order. */
module Naming {
  import opened Strings

  // ---------------------------------------------------------------------
  // The first candidate and the base used for numbering

  /** `baseTitle.endsWith('.md') ? baseTitle : `${baseTitle}.md`` */
  function WithMd(title: string): (r: string)
    ensures EndsWith(r, ".md")
    ensures EndsWith(title, ".md") ==> r == title
    ensures !EndsWith(title, ".md") ==> r == title + ".md"
  {
    if EndsWith(title, ".md") then title
    else
      EndsWithConcat(title, ".md");
      title + ".md"
  }

  /** The number of decimal digits `t` ends with. */
  function TrailingDigits(t: string): (d: nat)
    ensures d <= |t|
    ensures forall i :: |t| - d <= i < |t| ==> IsDigit(t[i])
    ensures d < |t| ==> !IsDigit(t[|t| - d - 1])
  {
    if |t| == 0 || !IsDigit(t[|t| - 1]) then 0
    else
      var d := TrailingDigits(t[..|t| - 1]);
      assert forall i :: |t| - d - 1 <= i < |t| - 1 ==> t[i] == t[..|t| - 1][i];
      d + 1
  }

  /** The regular expression `/ \d+\.md$/` matches `s` starting at position `p`:
      a space, one or more ASCII digits, then `.md` at the very end. */
  predicate NumberedMdAt(s: string, p: int) {
    && 0 <= p
    && p + 5 <= |s|
    && EndsWith(s, ".md")
    && s[p] == ' '
    && forall i :: p < i < |s| - 3 ==> IsDigit(s[i])
  }

  /** A match of `/ \d+\.md$/` can start at one position only: the space just
      before the run of digits that precedes the final `.md`. */
  lemma NumberedMdPosition(s: string, p: int)
    requires NumberedMdAt(s, p)
    ensures TrailingDigits(s[..|s| - 3]) == |s| - 4 - p
  {
    var t := s[..|s| - 3];
    var d := TrailingDigits(t);
    assert forall i :: 0 <= i < |t| ==> t[i] == s[i];
    assert t[p] == ' ';
  }

  /** `s.replace(/ \d+\.md$/, '')`: removes a trailing ` <digits>.md` if present. */
  function StripNumberedMd(s: string): (r: string)
    ensures forall p :: NumberedMdAt(s, p) ==> r == s[..p]
    ensures (forall p :: !NumberedMdAt(s, p)) ==> r == s
  {
    if EndsWith(s, ".md") then
      var t := s[..|s| - 3];
      var d := TrailingDigits(t);
      if 0 < d < |t| && t[|t| - d - 1] == ' ' then
        assert NumberedMdAt(s, |t| - d - 1);
        assert forall p :: NumberedMdAt(s, p) ==> p == |t| - d - 1 by {
          forall p | NumberedMdAt(s, p)
            ensures p == |t| - d - 1
          {
            NumberedMdPosition(s, p);
          }
        }
        t[..|t| - d - 1]
      else
        assert forall p :: !NumberedMdAt(s, p) by {
          forall p | NumberedMdAt(s, p)
            ensures false
          {
            NumberedMdPosition(s, p);
          }
        }
        s
    else s
  }

  /** `s.replace(/\.md$/, '')` */
  function StripMd(s: string): (r: string)
    ensures EndsWith(s, ".md") ==> s == r + ".md"
    ensures !EndsWith(s, ".md") ==> r == s
  {
    if EndsWith(s, ".md") then
      assert s == s[..|s| - 3] + s[|s| - 3..];
      s[..|s| - 3]
    else s
  }

  /** The base the numbered candidates are built from (lib/shared.ts:24). */
  function SuffixBase(title: string): string {
    StripMd(StripNumberedMd(title))
  }

  /** The k-th numbered candidate, `${base} ${counter}.md`. */
  function Candidate(base: string, k: nat): string {
    base + " " + NatToString(k) + ".md"
  }

  lemma CandidateInjective(base: string, i: nat, j: nat)
    requires Candidate(base, i) == Candidate(base, j)
    ensures i == j
  {
    var ci, cj := Candidate(base, i), Candidate(base, j);
    assert ci[|base| + 1..|ci| - 3] == NatToString(i);
    assert cj[|base| + 1..|cj| - 3] == NatToString(j);
    NatToStringInjective(i, j);
  }

  // ---------------------------------------------------------------------
  // Collisions

  /** `existing.some((path) => getFilename(path) === name)` */
  predicate Collides(existing: seq<string>, name: string) {
    exists p :: p in existing && Basename(p) == name
  }

  /** The set of final path segments of the existing entries. */
  function Basenames(existing: seq<string>): set<string> {
    if |existing| == 0 then {}
    else {Basename(existing[0])} + Basenames(existing[1..])
  }

  lemma {:induction false} BasenamesCardinality(existing: seq<string>)
    ensures |Basenames(existing)| <= |existing|
  {
    if |existing| > 0 {
      BasenamesCardinality(existing[1..]);
    }
  }

  lemma {:induction false} BasenamesMembership(existing: seq<string>, name: string)
    ensures name in Basenames(existing) <==> Collides(existing, name)
  {
    if |existing| > 0 {
      BasenamesMembership(existing[1..], name);
      if Collides(existing, name) {
        var p :| p in existing && Basename(p) == name;
        if p != existing[0] {
          assert p in existing[1..];
        }
      }
      if Collides(existing[1..], name) {
        var p :| p in existing[1..] && Basename(p) == name;
        assert p in existing;
      }
    }
  }

  /** The numbered candidates 1 .. k - 1. */
  function CandidatesBelow(base: string, k: nat): set<string> {
    if k <= 1 then {} else CandidatesBelow(base, k - 1) + {Candidate(base, k - 1)}
  }

  lemma {:induction false} CandidatesBelowMembers(base: string, k: nat, x: string)
    requires x in CandidatesBelow(base, k)
    ensures exists j :: 1 <= j < k && Candidate(base, j) == x
  {
    if x != Candidate(base, k - 1) {
      CandidatesBelowMembers(base, k - 1, x);
    }
  }

  /** The candidates 1 .. k - 1 are k - 1 distinct names. */
  lemma {:induction false} CandidatesBelowCardinality(base: string, k: nat)
    requires 1 <= k
    ensures |CandidatesBelow(base, k)| == k - 1
  {
    if k > 1 {
      CandidatesBelowCardinality(base, k - 1);
      var c := Candidate(base, k - 1);
      if c in CandidatesBelow(base, k - 1) {
        CandidatesBelowMembers(base, k - 1, c);
        var j :| 1 <= j < k - 1 && Candidate(base, j) == c;
        CandidateInjective(base, j, k - 1);
      }
    }
  }

  /** When the candidates 1 .. k - 1 all collide, they are all among the
      existing basenames. */
  lemma {:induction false} CandidatesBelowCollide(existing: seq<string>, base: string, k: nat)
    requires 1 <= k
    requires forall j :: 1 <= j < k ==> Collides(existing, Candidate(base, j))
    ensures CandidatesBelow(base, k) <= Basenames(existing)
  {
    if k > 1 {
      CandidatesBelowCollide(existing, base, k - 1);
      BasenamesMembership(existing, Candidate(base, k - 1));
    }
  }

  lemma SubsetCardinality(a: set<string>, b: set<string>)
    requires a <= b
    ensures |a| <= |b|
  {
    assert b == a + (b - a);
  }

  /** Pigeonhole: at most |existing| numbered candidates can collide in a row,
      because they are pairwise distinct. */
  lemma ProbesBounded(existing: seq<string>, base: string, k: nat)
    requires 1 <= k
    requires forall j :: 1 <= j < k ==> Collides(existing, Candidate(base, j))
    ensures k <= |existing| + 1
  {
    CandidatesBelowCardinality(base, k);
    CandidatesBelowCollide(existing, base, k);
    SubsetCardinality(CandidatesBelow(base, k), Basenames(existing));
    BasenamesCardinality(existing);
  }

  // ---------------------------------------------------------------------
  // The probing loop

  /** The loop of lib/shared.ts:33-36 from counter value `k` on: the first
      numbered candidate at or after `k` that does not collide. */
  function FirstFreeSuffix(existing: seq<string>, base: string, k: nat): (r: nat)
    requires 1 <= k
    requires forall j :: 1 <= j < k ==> Collides(existing, Candidate(base, j))
    ensures k <= r <= |existing| + 1
    ensures !Collides(existing, Candidate(base, r))
    ensures forall j :: 1 <= j < r ==> Collides(existing, Candidate(base, j))
    decreases |existing| + 1 - k
  {
    ProbesBounded(existing, base, k);
    if !Collides(existing, Candidate(base, k)) then k
    else
      ProbesBounded(existing, base, k + 1);
      FirstFreeSuffix(existing, base, k + 1)
  }

  /** `getUniqueNoteName(existing, baseTitle)` */
  function UniqueNoteName(existing: seq<string>, baseTitle: string): (r: string)
    ensures EndsWith(r, ".md")
    ensures forall p :: p in existing ==> Basename(p) != r
    ensures !Collides(existing, WithMd(baseTitle)) ==> r == WithMd(baseTitle)
    ensures Collides(existing, WithMd(baseTitle)) ==>
      exists k :: 1 <= k <= |existing| + 1
        && r == Candidate(SuffixBase(baseTitle), k)
        && forall j :: 1 <= j < k ==> Collides(existing, Candidate(SuffixBase(baseTitle), j))
  {
    var first := WithMd(baseTitle);
    if !Collides(existing, first) then first
    else
      var base := SuffixBase(baseTitle);
      var k := FirstFreeSuffix(existing, base, 1);
      EndsWithConcat(base + " " + NatToString(k), ".md");
      Candidate(base, k)
  }

  // ---------------------------------------------------------------------
  // Consequences

  /** The result depends only on which entries exist, not on their order or
      on repetitions among them. */
  lemma UniqueNoteNameDependsOnEntriesOnly(e1: seq<string>, e2: seq<string>, title: string)
    requires forall p :: p in e1 <==> p in e2
    ensures UniqueNoteName(e1, title) == UniqueNoteName(e2, title)
  {
    var first := WithMd(title);
    CollidesSameEntries(e1, e2, first);
    if Collides(e1, first) {
      // each result is the least non-colliding index, so neither can be smaller
      var base := SuffixBase(title);
      var r1, r2 := FirstFreeSuffix(e1, base, 1), FirstFreeSuffix(e2, base, 1);
      CollidesSameEntries(e1, e2, Candidate(base, r1));
      CollidesSameEntries(e1, e2, Candidate(base, r2));
      assert r1 == r2;
      assert UniqueNoteName(e1, title) == Candidate(base, r1);
      assert UniqueNoteName(e2, title) == Candidate(base, r2);
    }
  }

  lemma CollidesSameEntries(e1: seq<string>, e2: seq<string>, name: string)
    requires forall p :: p in e1 <==> p in e2
    ensures Collides(e1, name) == Collides(e2, name)
  {
    if Collides(e1, name) {
      var p :| p in e1 && Basename(p) == name;
      assert p in e2;
    }
    if Collides(e2, name) {
      var p :| p in e2 && Basename(p) == name;
      assert p in e1;
    }
  }

  /** The converse view of the numbered case: whenever the first candidate
      collides, the result is the candidate with the least free index. */
  lemma UniqueNoteNameIsLeastFreeCandidate(existing: seq<string>, title: string, k: nat)
    requires Collides(existing, WithMd(title))
    requires 1 <= k
    requires !Collides(existing, Candidate(SuffixBase(title), k))
    requires forall j :: 1 <= j < k ==> Collides(existing, Candidate(SuffixBase(title), j))
    ensures UniqueNoteName(existing, title) == Candidate(SuffixBase(title), k)
  {
    var base := SuffixBase(title);
    var r := FirstFreeSuffix(existing, base, 1);
    NumberedResult(existing, title);
    assert Collides(existing, Candidate(base, k)) || k >= r;
    assert r >= k;
  }

  /** When the first candidate collides, the result is the first free
      numbered candidate. */
  lemma NumberedResult(existing: seq<string>, title: string)
    requires Collides(existing, WithMd(title))
    ensures UniqueNoteName(existing, title) == Candidate(SuffixBase(title), FirstFreeSuffix(existing, SuffixBase(title), 1))
  {
  }

  lemma BasenameWithoutSlash(path: string)
    requires '/' !in path
    ensures Basename(path) == path
  {
  }

  lemma BasenameInFolder(folder: string, name: string)
    requires '/' !in name
    ensures Basename(folder + "/" + name) == name
  {
    var path := folder + "/" + name;
    assert path[|folder|] == '/';
    assert forall i :: |folder| < i < |path| ==> path[i] == name[i - |folder| - 1];
    assert path[|folder| + 1..] == name;
  }

  // Literal facts about the names in the examples, one per lemma so that each
  // proof stays small.

  lemma NoteFirstCandidate()
    ensures WithMd("Note") == "Note.md"
  {
    assert !EndsWith("Note", ".md") by {
      assert "Note"[1..] == "ote";
    }
  }

  lemma NumberedFirstCandidate()
    ensures WithMd("Note 1.md") == "Note 1.md"
  {
    assert "Note 1.md"[6..] == ".md";
  }

  lemma NoteBase()
    ensures SuffixBase("Note") == "Note"
  {
    assert !EndsWith("Note", ".md") by {
      assert "Note"[1..] == "ote";
    }
  }

  lemma NumberedBase()
    ensures SuffixBase("Note 1.md") == "Note"
  {
    assert NumberedMdAt("Note 1.md", 4);
    assert "Note 1.md"[..4] == "Note";
    NoteBase();
  }

  lemma NoteCandidateOne()
    ensures Candidate("Note", 1) == "Note 1.md"
  {
    assert NatToString(1) == "1";
  }

  lemma NoteCandidateTwo()
    ensures Candidate("Note", 2) == "Note 2.md"
  {
    assert NatToString(2) == "2";
  }

  lemma PlainBasename()
    ensures Basename("Note.md") == "Note.md"
  {
    BasenameWithoutSlash("Note.md");
  }

  lemma NumberedBasename()
    ensures Basename("Note 1.md") == "Note 1.md"
  {
    BasenameWithoutSlash("Note 1.md");
  }

  lemma FolderBasename()
    ensures Basename("folder/Note.md") == "Note.md"
  {
    BasenameInFolder("folder", "Note.md");
    assert "folder" + "/" + "Note.md" == "folder/Note.md";
  }

  lemma DistinctNames()
    ensures "Note.md" != "Note 1.md" && "Note.md" != "Note 2.md" && "Note 1.md" != "Note 2.md"
  {
    assert "Note 1.md"[5] != "Note 2.md"[5];
  }

  /** The first numbered candidate is chosen when the first candidate is taken
      and it is free. */
  lemma FirstNumberedChosen(existing: seq<string>, title: string)
    requires Collides(existing, WithMd(title))
    requires !Collides(existing, Candidate(SuffixBase(title), 1))
    ensures UniqueNoteName(existing, title) == Candidate(SuffixBase(title), 1)
  {
    UniqueNoteNameIsLeastFreeCandidate(existing, title, 1);
  }

  /** The second numbered candidate is chosen when the first candidate and the
      first numbered one are taken and the second is free. */
  lemma SecondCandidateChosen(existing: seq<string>, title: string)
    requires Collides(existing, WithMd(title))
    requires Collides(existing, Candidate(SuffixBase(title), 1))
    requires !Collides(existing, Candidate(SuffixBase(title), 2))
    ensures UniqueNoteName(existing, title) == Candidate(SuffixBase(title), 2)
  {
    var base := SuffixBase(title);
    forall j | 1 <= j < 2
      ensures Collides(existing, Candidate(base, j))
    {
      assert j == 1;
    }
    UniqueNoteNameIsLeastFreeCandidate(existing, title, 2);
  }

  lemma CollidesSingle(p: string, name: string)
    requires Basename(p) == name
    ensures Collides([p], name)
  {
    assert p in [p];
  }

  lemma FreeSingle(p: string, name: string)
    requires Basename(p) != name
    ensures !Collides([p], name)
  {
    assert forall x :: x in [p] ==> x == p;
  }

  lemma CollidesPair(p: string, q: string, name: string)
    requires Basename(p) == name || Basename(q) == name
    ensures Collides([p, q], name)
  {
    assert p in [p, q] && q in [p, q];
  }

  lemma FreePair(p: string, q: string, name: string)
    requires Basename(p) != name && Basename(q) != name
    ensures !Collides([p, q], name)
  {
    assert forall x :: x in [p, q] ==> x == p || x == q;
  }

  /** One entry: the result is the first numbered candidate when the entry's
      final segment is the first candidate and not the numbered one. */
  lemma OneEntry(p: string, title: string, first: string, numbered: string)
    requires WithMd(title) == first && Candidate(SuffixBase(title), 1) == numbered
    requires Basename(p) == first && first != numbered
    ensures UniqueNoteName([p], title) == numbered
  {
    CollidesSingle(p, first);
    FreeSingle(p, numbered);
    FirstNumberedChosen([p], title);
  }

  /** Two entries holding the first candidate and the first numbered one: the
      result is the second numbered candidate when it is free. */
  lemma TwoEntries(p: string, q: string, title: string, first: string, one: string, two: string)
    requires WithMd(title) == first
    requires Candidate(SuffixBase(title), 1) == one && Candidate(SuffixBase(title), 2) == two
    requires Basename(p) == first && Basename(q) == one
    requires first != two && one != two
    ensures UniqueNoteName([p, q], title) == two
  {
    CollidesPair(p, q, first);
    CollidesPair(p, q, one);
    FreePair(p, q, two);
    SecondCandidateChosen([p, q], title);
  }

  /** One entry that is both the first candidate and the first numbered one. */
  lemma OneEntryTakenTwice(p: string, title: string, one: string, two: string)
    requires WithMd(title) == one
    requires Candidate(SuffixBase(title), 1) == one && Candidate(SuffixBase(title), 2) == two
    requires Basename(p) == one && one != two
    ensures UniqueNoteName([p], title) == two
  {
    CollidesSingle(p, one);
    FreeSingle(p, two);
    SecondCandidateChosen([p], title);
  }

  lemma ExampleFirstSuffix(e: seq<string>)
    requires e == ["Note.md"]
    ensures UniqueNoteName(e, "Note") == "Note 1.md"
  {
    NoteFirstCandidate();
    NoteBase();
    NoteCandidateOne();
    PlainBasename();
    DistinctNames();
    OneEntry(e[0], "Note", "Note.md", "Note 1.md");
  }

  lemma ExampleSecondSuffix(e: seq<string>)
    requires e == ["Note.md", "Note 1.md"]
    ensures UniqueNoteName(e, "Note") == "Note 2.md"
  {
    NoteFirstCandidate();
    NoteBase();
    NoteCandidateOne();
    NoteCandidateTwo();
    PlainBasename();
    NumberedBasename();
    DistinctNames();
    TwoEntries(e[0], e[1], "Note", "Note.md", "Note 1.md", "Note 2.md");
  }

  lemma ExampleFolderCollision(e: seq<string>)
    requires e == ["folder/Note.md"]
    ensures UniqueNoteName(e, "Note") == "Note 1.md"
  {
    NoteFirstCandidate();
    NoteBase();
    NoteCandidateOne();
    FolderBasename();
    DistinctNames();
    OneEntry(e[0], "Note", "Note.md", "Note 1.md");
  }

  /** The numbered probe can reach |existing| + 1: a numbered title whose own
      name is taken probes that same name again as its first candidate. */
  lemma ExampleProbeBoundTight(e: seq<string>)
    requires e == ["Note 1.md"]
    ensures UniqueNoteName(e, "Note 1.md") == "Note 2.md"
    ensures Candidate(SuffixBase("Note 1.md"), |e| + 1) == "Note 2.md"
  {
    NumberedFirstCandidate();
    NumberedBase();
    NoteCandidateOne();
    NoteCandidateTwo();
    NumberedBasename();
    DistinctNames();
    OneEntryTakenTwice(e[0], "Note 1.md", "Note 1.md", "Note 2.md");
  }

  /** A title holding a '/' is never reported as colliding, because the check
      compares it with final path segments, which hold no '/'. */
  lemma SlashTitleNeverCollides(existing: seq<string>, title: string)
    requires '/' in title
    ensures UniqueNoteName(existing, title) == WithMd(title)
  {
    var first := WithMd(title);
    assert '/' in first by {
      var i :| 0 <= i < |title| && title[i] == '/';
      if !EndsWith(title, ".md") {
        assert first[i] == '/';
      }
    }
  }

  /** A title without a '/' gives a name without one: the name is the title
      itself, with `.md`, or a prefix of it followed by a numeral and `.md`. */
  lemma NoSlashInName(existing: seq<string>, title: string)
    requires '/' !in title
    ensures '/' !in UniqueNoteName(existing, title)
  {
    var r := UniqueNoteName(existing, title);
    if Collides(existing, WithMd(title)) {
      var k :| 1 <= k <= |existing| + 1 && r == Candidate(SuffixBase(title), k);
      NoSlashInSuffixBase(title);
      NoSlashInCandidate(SuffixBase(title), k);
    }
  }

  lemma NoSlashInPrefix(s: string, n: nat)
    requires n <= |s| && '/' !in s
    ensures '/' !in s[..n]
  {
    assert forall i :: 0 <= i < n ==> s[..n][i] == s[i];
  }

  lemma NoSlashInSuffixBase(title: string)
    requires '/' !in title
    ensures '/' !in SuffixBase(title)
  {
    var stripped := StripNumberedMd(title);
    if stripped != title {
      var p :| NumberedMdAt(title, p);
      NoSlashInPrefix(title, p);
    }
    if EndsWith(stripped, ".md") {
      NoSlashInPrefix(stripped, |stripped| - 3);
      assert StripMd(stripped) == stripped[..|stripped| - 3];
    }
  }

  lemma NoSlashInCandidate(base: string, k: nat)
    requires '/' !in base
    ensures '/' !in Candidate(base, k)
  {
    var digits := NatToString(k);
    assert forall i :: 0 <= i < |digits| ==> IsDigit(digits[i]);
    var c := Candidate(base, k);
    forall i | 0 <= i < |c|
      ensures c[i] != '/'
    {
      if i < |base| {
        assert c[i] == base[i];
      } else if i == |base| {
        assert c[i] == ' ';
      } else if i < |base| + 1 + |digits| {
        assert c[i] == digits[i - |base| - 1];
      } else {
        assert c[i] == ".md"[i - |base| - 1 - |digits|];
      }
    }
  }
}
