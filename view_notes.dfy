/** The client's note list: the filter chain and the sort applied to the
    fetched notes, the distinct subjects offered as a filter, and the
    removal of a deleted note from the list. */
module ViewNotes {
  import opened Common
  import opened Strings
  import opened NoteSchema

  /* ---------------------------------------------------------------- */
  /* subsequences                                                     */

  /** Dropping the first element of a subsequence leaves a subsequence. */
  lemma {:induction false} SubseqDropHead<T>(a: seq<T>, t: seq<T>)
    requires a != [] && IsSubseq(a, t)
    ensures IsSubseq(a[1..], t)
    decreases |t|, 1
  {
    if a[0] == t[0] {
      SubseqExtend(a[1..], t);
    } else {
      SubseqDropHead(a, t[1..]);
      SubseqExtend(a[1..], t);
    }
  }

  /** A subsequence of the tail is a subsequence of the whole. */
  lemma {:induction false} SubseqExtend<T>(x: seq<T>, t: seq<T>)
    requires t != [] && IsSubseq(x, t[1..])
    ensures IsSubseq(x, t)
    decreases |t|, 0
  {
    if x != [] && x[0] == t[0] {
      SubseqDropHead(x, t[1..]);
    }
  }

  lemma {:induction false} SubseqTrans<T>(a: seq<T>, b: seq<T>, c: seq<T>)
    requires IsSubseq(a, b) && IsSubseq(b, c)
    ensures IsSubseq(a, c)
    decreases |c|
  {
    if a != [] {
      if b[0] == c[0] && a[0] == b[0] {
        SubseqTrans(a[1..], b[1..], c[1..]);
      } else {
        if b[0] == c[0] {
          SubseqTrans(a, b[1..], c[1..]);
        } else {
          SubseqTrans(a, b, c[1..]);
        }
        SubseqExtend(a, c);
      }
    }
  }

  lemma {:induction false} SubseqRefl<T>(s: seq<T>)
    ensures IsSubseq(s, s)
  {
    if s != [] {
      SubseqRefl(s[1..]);
    }
  }

  /* ---------------------------------------------------------------- */
  /* filteredAndSortedNotes: the filters                              */

  const ALL: string := "all"

  /** The controls of the page. */
  datatype Controls = Controls(
    searchQuery: string,
    subject: string,
    department: string,
    semester: string,
    examModeOnly: bool,
    sortBy: string)

  predicate MatchesSearch(n: Note, q: string)
  {
    ContainsIgnoreCase(n.title, q) || ContainsIgnoreCase(n.subject, q)
  }

  /** `parseInt` of the semester control; `NaN` equals no semester. */
  predicate InSemester(n: Note, semester: string)
  {
    ParseInt(semester).Some? && n.semester == ParseInt(semester).value
  }

  /** One step of the chain: a filter when its control is set. */
  function Step(s: seq<Note>, on: bool, p: Note -> bool): (r: seq<Note>)
    ensures forall n :: n in r <==> n in s && (on ==> p(n))
    ensures IsSubseq(r, s)
  {
    if on then
      FilterIsSubseq(s, p);
      Filter(s, p)
    else
      SubseqRefl(s);
      s
  }

  /** The notes the controls keep: all five filters hold. */
  predicate Kept(n: Note, c: Controls)
  {
    && (c.searchQuery != "" ==> MatchesSearch(n, c.searchQuery))
    && (c.subject != ALL ==> n.subject == c.subject)
    && (c.department != ALL ==> DepartmentName(n.department) == c.department)
    && (c.semester != ALL ==> InSemester(n, c.semester))
    && (c.examModeOnly ==> n.isImportantForExam)
  }

  /** The chain of filters, in the page's order. */
  function Filtered(notes: seq<Note>, c: Controls): seq<Note>
  {
    var bySearch := Step(notes, c.searchQuery != "", (n: Note) => MatchesSearch(n, c.searchQuery));
    var bySubject := Step(bySearch, c.subject != ALL, (n: Note) => n.subject == c.subject);
    var byDepartment := Step(bySubject, c.department != ALL, (n: Note) => DepartmentName(n.department) == c.department);
    var bySemester := Step(byDepartment, c.semester != ALL, (n: Note) => InSemester(n, c.semester));
    Step(bySemester, c.examModeOnly, (n: Note) => n.isImportantForExam)
  }

  /** The filters keep exactly the fetched notes that pass all of them. */
  lemma FilteredExact(notes: seq<Note>, c: Controls)
    ensures forall n :: n in Filtered(notes, c) <==> n in notes && Kept(n, c)
  {
    var bySearch := Step(notes, c.searchQuery != "", (n: Note) => MatchesSearch(n, c.searchQuery));
    var bySubject := Step(bySearch, c.subject != ALL, (n: Note) => n.subject == c.subject);
    var byDepartment := Step(bySubject, c.department != ALL, (n: Note) => DepartmentName(n.department) == c.department);
    var bySemester := Step(byDepartment, c.semester != ALL, (n: Note) => InSemester(n, c.semester));
    var r := Step(bySemester, c.examModeOnly, (n: Note) => n.isImportantForExam);
    forall n ensures n in r <==> n in notes && Kept(n, c) {
      assert n in bySearch <==> n in notes && (c.searchQuery != "" ==> MatchesSearch(n, c.searchQuery));
      assert n in bySubject <==> n in bySearch && (c.subject != ALL ==> n.subject == c.subject);
      assert n in byDepartment <==> n in bySubject && (c.department != ALL ==> DepartmentName(n.department) == c.department);
      assert n in bySemester <==> n in byDepartment && (c.semester != ALL ==> InSemester(n, c.semester));
      assert n in r <==> n in bySemester && (c.examModeOnly ==> n.isImportantForExam);
    }
  }

  /** The filters only remove: what they keep is in the fetched order. */
  lemma FilteredIsSubseq(notes: seq<Note>, c: Controls)
    ensures IsSubseq(Filtered(notes, c), notes)
  {
    var bySearch := Step(notes, c.searchQuery != "", (n: Note) => MatchesSearch(n, c.searchQuery));
    var bySubject := Step(bySearch, c.subject != ALL, (n: Note) => n.subject == c.subject);
    var byDepartment := Step(bySubject, c.department != ALL, (n: Note) => DepartmentName(n.department) == c.department);
    var bySemester := Step(byDepartment, c.semester != ALL, (n: Note) => InSemester(n, c.semester));
    var r := Step(bySemester, c.examModeOnly, (n: Note) => n.isImportantForExam);
    SubseqTrans(bySubject, bySearch, notes);
    SubseqTrans(byDepartment, bySubject, notes);
    SubseqTrans(bySemester, byDepartment, notes);
    SubseqTrans(r, bySemester, notes);
  }

  /* ---------------------------------------------------------------- */
  /* filteredAndSortedNotes: the sort                                 */

  ghost predicate NonIncreasing(s: seq<Note>, key: Note -> real)
  {
    forall i, j :: 0 <= i < j < |s| ==> key(s[i]) >= key(s[j])
  }

  /** The first `n` elements are in order, largest key first. */
  ghost predicate PrefixSorted(s: seq<Note>, n: nat, key: Note -> real)
    requires n <= |s|
  {
    forall x, y :: 0 <= x < y < n ==> key(s[x]) >= key(s[y])
  }

  /** `sorted.sort(compare)` in place, for a comparator that orders by a
      key, largest first: an insertion sort. */
  method SortByKey(a: array<Note>, key: Note -> real)
    modifies a
    ensures NonIncreasing(a[..], key)
    ensures multiset(a[..]) == old(multiset(a[..]))
  {
    var i := 0;
    while i < a.Length
      invariant i <= a.Length
      invariant PrefixSorted(a[..], i, key)
      invariant multiset(a[..]) == old(multiset(a[..]))
    {
      SinkLast(a, i, key);
      i := i + 1;
    }
    assert NonIncreasing(a[..], key) by {
      assert PrefixSorted(a[..], a.Length, key);
    }
  }

  /** While `a[i]` sinks to `j`: the others are in order, and what it has
      passed has a smaller key. */
  ghost predicate Sinking(s: seq<Note>, i: nat, j: nat, key: Note -> real)
    requires j <= i < |s|
  {
    && (forall x, y :: 0 <= x < y <= i && x != j && y != j ==> key(s[x]) >= key(s[y]))
    && (forall y :: j < y <= i ==> key(s[j]) > key(s[y]))
  }

  lemma SinkStarts(s: seq<Note>, i: nat, key: Note -> real)
    requires i < |s| && PrefixSorted(s, i, key)
    ensures Sinking(s, i, i, key)
  {
  }

  lemma SinkStops(s: seq<Note>, i: nat, j: nat, key: Note -> real)
    requires j <= i < |s| && Sinking(s, i, j, key)
    requires j == 0 || key(s[j - 1]) >= key(s[j])
    ensures PrefixSorted(s, i + 1, key)
  {
    forall x, y | 0 <= x < y <= i ensures key(s[x]) >= key(s[y]) {
      if y == j && x < j - 1 {
        assert key(s[x]) >= key(s[j - 1]);
      }
    }
  }

  lemma SwapSinks(s: seq<Note>, i: nat, j: nat, key: Note -> real)
    requires 0 < j <= i < |s| && Sinking(s, i, j, key) && key(s[j - 1]) < key(s[j])
    ensures Sinking(s[j - 1 := s[j]][j := s[j - 1]], i, j - 1, key)
  {
  }

  lemma SwapPermutes(s: seq<Note>, p: nat, q: nat)
    requires p < q < |s|
    ensures multiset(s[p := s[q]][q := s[p]]) == multiset(s)
  {
  }

  /** Moves `a[i]` left past the elements of smaller key before it. */
  method SinkLast(a: array<Note>, i: nat, key: Note -> real)
    requires i < a.Length && PrefixSorted(a[..], i, key)
    modifies a
    ensures PrefixSorted(a[..], i + 1, key)
    ensures multiset(a[..]) == old(multiset(a[..]))
  {
    SinkStarts(a[..], i, key);
    ghost var elements := multiset(a[..]);
    var j := i;
    while j > 0 && key(a[j - 1]) < key(a[j])
      invariant 0 <= j <= i
      invariant Sinking(a[..], i, j, key)
      invariant multiset(a[..]) == elements
    {
      ghost var before := a[..];
      SwapSinks(before, i, j, key);
      SwapPermutes(before, j - 1, j);
      var t := a[j - 1];
      a[j - 1] := a[j];
      a[j] := t;
      assert a[..] == before[j - 1 := before[j]][j := before[j - 1]];
      j := j - 1;
    }
    SinkStops(a[..], i, j, key);
  }

  /** The key each sort option orders by, largest first; `titleRank`
      stands for the order `localeCompare` puts titles in. `None` for an
      unknown option, which leaves the order alone. */
  function SortKeyOf(sortBy: string, titleRank: string -> int): Option<Note -> real>
  {
    if sortBy == "date-desc" then Some((n: Note) => n.createdAt as real)
    else if sortBy == "date-asc" then Some((n: Note) => -(n.createdAt as real))
    else if sortBy == "title-asc" then Some((n: Note) => -(titleRank(n.title) as real))
    else if sortBy == "title-desc" then Some((n: Note) => titleRank(n.title) as real)
    else if sortBy == "rating-desc" then Some((n: Note) => n.averageRating)
    else None
  }

  /** `filteredAndSortedNotes`: the filtered notes, copied and sorted by
      the chosen option. The fetched list itself is a value and is not
      reordered. */
  method FilteredAndSorted(notes: seq<Note>, c: Controls, titleRank: string -> int)
    returns (r: seq<Note>)
    ensures multiset(r) == multiset(Filtered(notes, c))
    ensures c.sortBy == "date-desc" ==> forall i, j :: 0 <= i < j < |r| ==> r[i].createdAt >= r[j].createdAt
    ensures c.sortBy == "date-asc" ==> forall i, j :: 0 <= i < j < |r| ==> r[i].createdAt <= r[j].createdAt
    ensures c.sortBy == "title-asc" ==>
      forall i, j :: 0 <= i < j < |r| ==> titleRank(r[i].title) <= titleRank(r[j].title)
    ensures c.sortBy == "title-desc" ==>
      forall i, j :: 0 <= i < j < |r| ==> titleRank(r[i].title) >= titleRank(r[j].title)
    ensures c.sortBy == "rating-desc" ==>
      forall i, j :: 0 <= i < j < |r| ==> r[i].averageRating >= r[j].averageRating
    ensures SortKeyOf(c.sortBy, titleRank).None? ==> r == Filtered(notes, c)
  {
    var filtered := Filtered(notes, c);
    var sorted := new Note[|filtered|](i requires 0 <= i < |filtered| => filtered[i]);
    assert sorted[..] == filtered;
    var key := SortKeyOf(c.sortBy, titleRank);
    if key.Some? {
      SortByKey(sorted, key.value);
    }
    r := sorted[..];
  }

  /* ---------------------------------------------------------------- */
  /* subjects                                                          */

  /** Where a character's UTF-16 encoding sorts: characters below U+D800
      by themselves, characters outside the Basic Multilingual Plane by
      their surrogate pair (which starts in D800-DBFF), and characters from
      U+E000 on after all of those. Distinct characters get distinct keys. */
  function CodeUnitKey(c: char): int
  {
    if c as int < 0xD800 then c as int
    else if c as int > 0xFFFF then c as int - 0x10000 + 0xD800
    else c as int + 0x100000
  }

  lemma CodeUnitKeyInjective(c: char, d: char)
    requires c != d
    ensures CodeUnitKey(c) != CodeUnitKey(d)
  {
  }

  /** The default order of `Array.prototype.sort` on strings: by UTF-16
      code units, so character by character under `CodeUnitKey`, a proper
      prefix first. */
  predicate LexLess(a: string, b: string)
  {
    b != [] && (a == [] || CodeUnitKey(a[0]) < CodeUnitKey(b[0])
                || (a[0] == b[0] && LexLess(a[1..], b[1..])))
  }

  lemma {:induction false} LexIrreflexive(a: string)
    ensures !LexLess(a, a)
  {
    if a != [] {
      LexIrreflexive(a[1..]);
    }
  }

  lemma {:induction false} LexTransitive(a: string, b: string, c: string)
    requires LexLess(a, b) && LexLess(b, c)
    ensures LexLess(a, c)
  {
    if a != [] && a[0] == b[0] && b[0] == c[0] {
      LexTransitive(a[1..], b[1..], c[1..]);
    }
  }

  lemma {:induction false} LexTotal(a: string, b: string)
    requires a != b
    ensures LexLess(a, b) || LexLess(b, a)
  {
    if a != [] && b != [] && a[0] == b[0] {
      assert a == [a[0]] + a[1..] && b == [b[0]] + b[1..];
      LexTotal(a[1..], b[1..]);
    } else if a != [] && b != [] {
      CodeUnitKeyInjective(a[0], b[0]);
    }
  }

  ghost predicate StrictlySorted(s: seq<string>)
  {
    forall i, j :: 0 <= i < j < |s| ==> LexLess(s[i], s[j])
  }

  /** Adds `x` to a strictly sorted list unless it is there already. */
  function InsertDistinct(x: string, s: seq<string>): (r: seq<string>)
    requires StrictlySorted(s)
    ensures StrictlySorted(r)
    ensures forall y :: y in r <==> y in s || y == x
  {
    if s == [] then [x]
    else if x == s[0] then s
    else if LexLess(x, s[0]) then
      forall j | 0 <= j < |s| ensures LexLess(x, s[j]) {
        if j > 0 {
          LexTransitive(x, s[0], s[j]);
        }
      }
      [x] + s
    else
      LexTotal(x, s[0]);
      var rest := InsertDistinct(x, s[1..]);
      forall j | 0 <= j < |rest| ensures LexLess(s[0], rest[j]) {
        if rest[j] != x {
          assert rest[j] in rest;
          var k :| 0 <= k < |s[1..]| && s[1..][k] == rest[j];
          assert s[k + 1] == rest[j];
        }
      }
      [s[0]] + rest
  }

  /** The subjects of some notes, distinct and sorted. */
  function SortedSubjects(notes: seq<Note>): (r: seq<string>)
    ensures StrictlySorted(r)
    ensures forall x :: x in r <==> exists n :: n in notes && n.subject == x
  {
    if notes == [] then []
    else
      var rest := SortedSubjects(notes[1..]);
      assert forall n :: n in notes <==> n == notes[0] || n in notes[1..];
      InsertDistinct(notes[0].subject, rest)
  }

  /** The subject filter offers every subject once. */
  lemma SubjectsDistinct(notes: seq<Note>)
    ensures NoDup(SortedSubjects(notes))
  {
    var r := SortedSubjects(notes);
    forall i, j | 0 <= i < j < |r| ensures r[i] != r[j] {
      if r[i] == r[j] {
        LexIrreflexive(r[i]);
      }
    }
  }

  /* ---------------------------------------------------------------- */
  /* handleDelete                                                      */

  /** The list after a successful delete: the notes with that id are
      gone, the others stay in order. */
  function WithoutNote(notes: seq<Note>, id: Id): (r: seq<Note>)
    ensures forall n :: n in r <==> n in notes && n.id != id
    ensures IsSubseq(r, notes)
  {
    FilterIsSubseq(notes, (n: Note) => n.id != id);
    Filter(notes, (n: Note) => n.id != id)
  }

  /** A note not carrying the id is kept as often as it was there. */
  lemma WithoutNoteCount(notes: seq<Note>, id: Id, n: Note)
    ensures Count(WithoutNote(notes, id), n) == if n.id == id then 0 else Count(notes, n)
  {
    FilterCount(notes, (m: Note) => m.id != id, n);
  }

  /** The page's list of fetched notes, which a delete replaces. */
  class NotesPage {
    var notes: seq<Note>

    constructor (notes: seq<Note>)
      ensures this.notes == notes
    {
      this.notes := notes;
    }
  }

  /** `handleDelete`: when the user confirms and the server deletes the
      note, the list loses exactly that note; otherwise it stays. */
  method HandleDelete(page: NotesPage, id: Id, confirmed: bool, deleted: bool)
    modifies page
    ensures confirmed && deleted ==> page.notes == WithoutNote(old(page.notes), id)
    ensures !(confirmed && deleted) ==> page.notes == old(page.notes)
  {
    if !confirmed {
      return;
    }
    if deleted {
      page.notes := WithoutNote(page.notes, id);
    }
  }
}
