/**
 * The template tree as `readdir` with file types sees it, the order in which
 * a directory's entries are visited (`compareNames` as the comparator of
 * `entries.sort`), and the directory-exclusion test `shouldSkipDirectory`.
 */
module Entries {
  import opened Wrappers
  import opened Chars
  import opened Classify

  /** A node of the template tree: a directory, a regular file, or anything else (a link, a socket). */
  datatype Node = Directory(entries: seq<Entry>) | File(content: seq<byte>) | Other

  /** A directory entry: its name and what it names. */
  datatype Entry = Entry(name: string, node: Node)

  // ---------------------------------------------------------------------------
  // compareNames

  /** JavaScript's `left < right` on strings: character (Unicode scalar value) by character, a proper prefix first. */
  predicate Less(left: string, right: string)
    decreases |left|
  {
    if |right| == 0 then false
    else if |left| == 0 then true
    else if left[0] != right[0] then left[0] < right[0]
    else Less(left[1..], right[1..])
  }

  lemma {:induction false} LessIrreflexive(a: string)
    ensures !Less(a, a)
    decreases |a|
  {
    if |a| > 0 {
      LessIrreflexive(a[1..]);
    }
  }

  lemma {:induction false} LessAsymmetric(a: string, b: string)
    ensures Less(a, b) ==> !Less(b, a)
    decreases |a|
  {
    if |a| > 0 && |b| > 0 && a[0] == b[0] {
      LessAsymmetric(a[1..], b[1..]);
    }
  }

  lemma {:induction false} LessTransitive(a: string, b: string, c: string)
    requires Less(a, b) && Less(b, c)
    ensures Less(a, c)
    decreases |a|
  {
    if |a| > 0 && a[0] == b[0] && b[0] == c[0] {
      LessTransitive(a[1..], b[1..], c[1..]);
    }
  }

  /** Any two different strings are ordered one way or the other. */
  lemma {:induction false} LessTotal(a: string, b: string)
    requires a != b
    ensures Less(a, b) || Less(b, a)
    decreases |a|
  {
    if |a| > 0 && |b| > 0 && a[0] == b[0] {
      assert a == [a[0]] + a[1..] && b == [b[0]] + b[1..];
      LessTotal(a[1..], b[1..]);
    }
  }

  /** Exactly one of `a < b`, `a == b`, `b < a` holds. */
  lemma LessTrichotomy(a: string, b: string)
    ensures a == b ==> !Less(a, b) && !Less(b, a)
    ensures a != b ==> Less(a, b) != Less(b, a)
  {
    LessIrreflexive(a);
    LessAsymmetric(a, b);
    LessAsymmetric(b, a);
    if a != b {
      LessTotal(a, b);
    }
  }

  /** `compareNames`: -1, 0 or 1 as `left` comes before, equals or comes after `right`. */
  function CompareNames(left: string, right: string): (r: int)
    ensures r == -1 <==> Less(left, right)
    ensures r == 1 <==> Less(right, left)
    ensures r == 0 <==> left == right
  {
    LessTrichotomy(left, right);
    if Less(left, right) then -1
    else if Less(right, left) then 1
    else 0
  }

  /** The comparator is antisymmetric, as `sort` requires of it. */
  lemma CompareNamesAntisymmetric(a: string, b: string)
    ensures CompareNames(a, b) == -CompareNames(b, a)
  {
  }

  /** The comparator is transitive, as `sort` requires of it. */
  lemma CompareNamesTransitive(a: string, b: string, c: string)
    requires CompareNames(a, b) < 0 && CompareNames(b, c) < 0
    ensures CompareNames(a, c) < 0
  {
    LessTransitive(a, b, c);
  }

  // ---------------------------------------------------------------------------
  // entries.sort((a, b) => compareNames(a.name, b.name))

  /** The names of a directory listing are pairwise different, as `readdir` guarantees. */
  predicate DistinctNames(entries: seq<Entry>) {
    forall i, j :: 0 <= i < j < |entries| ==> entries[i].name != entries[j].name
  }

  predicate StrictlyAscending(entries: seq<Entry>) {
    forall i, j :: 0 <= i < j < |entries| ==> Less(entries[i].name, entries[j].name)
  }

  /** Places `e` before the first entry that the comparator puts after it. */
  function Insert(e: Entry, sorted: seq<Entry>): seq<Entry> {
    if |sorted| == 0 then [e]
    else if CompareNames(e.name, sorted[0].name) < 0 then [e] + sorted
    else [sorted[0]] + Insert(e, sorted[1..])
  }

  /** The listing after `entries.sort` with `compareNames`. */
  function SortByName(entries: seq<Entry>): seq<Entry> {
    if |entries| == 0 then [] else Insert(entries[0], SortByName(entries[1..]))
  }

  lemma {:induction false} InsertPermutes(e: Entry, sorted: seq<Entry>)
    ensures multiset(Insert(e, sorted)) == multiset(sorted) + multiset{e}
  {
    if |sorted| > 0 && CompareNames(e.name, sorted[0].name) >= 0 {
      InsertPermutes(e, sorted[1..]);
      assert sorted == [sorted[0]] + sorted[1..];
    }
  }

  lemma {:induction false} InsertMembers(e: Entry, sorted: seq<Entry>)
    ensures forall x :: x in Insert(e, sorted) <==> x == e || x in sorted
  {
    if |sorted| > 0 && CompareNames(e.name, sorted[0].name) >= 0 {
      InsertMembers(e, sorted[1..]);
      assert sorted == [sorted[0]] + sorted[1..];
    }
  }

  lemma {:induction false} SortByNameMembers(entries: seq<Entry>)
    ensures forall x :: x in SortByName(entries) <==> x in entries
  {
    if |entries| > 0 {
      SortByNameMembers(entries[1..]);
      InsertMembers(entries[0], SortByName(entries[1..]));
      assert entries == [entries[0]] + entries[1..];
    }
  }

  /** Sorting neither loses nor adds an entry. */
  lemma {:induction false} SortByNamePermutes(entries: seq<Entry>)
    ensures multiset(SortByName(entries)) == multiset(entries)
    ensures forall x :: x in SortByName(entries) <==> x in entries
  {
    if |entries| > 0 {
      SortByNamePermutes(entries[1..]);
      InsertPermutes(entries[0], SortByName(entries[1..]));
      assert entries == [entries[0]] + entries[1..];
    }
    SortByNameMembers(entries);
  }

  lemma {:induction false} InsertKeepsOrder(e: Entry, sorted: seq<Entry>)
    requires StrictlyAscending(sorted)
    requires forall x :: x in sorted ==> x.name != e.name
    ensures StrictlyAscending(Insert(e, sorted))
  {
    if |sorted| == 0 {
    } else if CompareNames(e.name, sorted[0].name) < 0 {
      forall j | 0 <= j < |sorted|
        ensures Less(e.name, sorted[j].name)
      {
        if j > 0 {
          LessTransitive(e.name, sorted[0].name, sorted[j].name);
        }
      }
    } else {
      var tail := sorted[1..];
      assert forall x :: x in tail ==> x in sorted;
      InsertKeepsOrder(e, tail);
      InsertMembers(e, tail);
      var rest := Insert(e, tail);
      assert Less(sorted[0].name, e.name) by {
        assert sorted[0] in sorted;
        LessTotal(e.name, sorted[0].name);
      }
      forall x | x in rest
        ensures Less(sorted[0].name, x.name)
      {
        if x != e {
          var j :| 0 <= j < |tail| && tail[j] == x;
          assert sorted[j + 1] == x;
        }
      }
      assert Insert(e, sorted) == [sorted[0]] + rest;
    }
  }

  /** Sorting keeps exactly the listed entries and visits them in strictly ascending name order. */
  lemma {:induction false} SortByNameSorts(entries: seq<Entry>)
    requires DistinctNames(entries)
    ensures multiset(SortByName(entries)) == multiset(entries)
    ensures StrictlyAscending(SortByName(entries))
  {
    SortByNamePermutes(entries);
    if |entries| > 0 {
      var tail := entries[1..];
      SortByNameSorts(tail);
      var sortedTail := SortByName(tail);
      SortByNameMembers(tail);
      forall x | x in sortedTail
        ensures x.name != entries[0].name
      {
        var j :| 0 <= j < |tail| && tail[j] == x;
        assert entries[j + 1] == x;
      }
      InsertKeepsOrder(entries[0], sortedTail);
    }
  }

  lemma AscendingHasDistinctNames(entries: seq<Entry>)
    requires StrictlyAscending(entries)
    ensures DistinctNames(entries)
  {
    forall i, j | 0 <= i < j < |entries|
      ensures entries[i].name != entries[j].name
    {
      LessIrreflexive(entries[i].name);
    }
  }

  /** The entry named `name`, if the listing has one. */
  function FindEntry(entries: seq<Entry>, name: string): (r: Option<Entry>)
    ensures r.Some? ==> r.value in entries && r.value.name == name
    ensures r.None? ==> forall x :: x in entries ==> x.name != name
  {
    if |entries| == 0 then None
    else if entries[0].name == name then Some(entries[0])
    else FindEntry(entries[1..], name)
  }

  /** The rest of a listing with distinct names has distinct names and does not list its head's name. */
  lemma DistinctTail(entries: seq<Entry>)
    requires |entries| > 0 && DistinctNames(entries)
    ensures DistinctNames(entries[1..])
    ensures FindEntry(entries[1..], entries[0].name).None?
  {
    var rest := entries[1..];
    forall i, j | 0 <= i < j < |rest|
      ensures rest[i].name != rest[j].name
    {
      assert rest[i] == entries[i + 1] && rest[j] == entries[j + 1];
    }
    forall x | x in rest
      ensures x.name != entries[0].name
    {
      var k :| 0 <= k < |rest| && rest[k] == x;
      assert entries[k + 1] == x;
    }
  }

  /** With pairwise different names, the entry found does not depend on the order of the listing. */
  lemma FindEntryInAnyOrder(entries: seq<Entry>, other: seq<Entry>, name: string)
    requires DistinctNames(entries) && DistinctNames(other)
    requires forall x :: x in entries <==> x in other
    ensures FindEntry(entries, name) == FindEntry(other, name)
  {
    var a := FindEntry(entries, name);
    var b := FindEntry(other, name);
    if a.Some? && b.Some? {
      var i :| 0 <= i < |entries| && entries[i] == a.value;
      var j :| 0 <= j < |entries| && entries[j] == b.value;
      if i < j {
        assert false;
      } else if j < i {
        assert false;
      }
    }
  }

  /** Every directory of the tree lists pairwise different names. */
  predicate DistinctTree(node: Node)
    decreases node
  {
    match node
    case Directory(entries) =>
      DistinctNames(entries) && forall e :: e in entries ==> DistinctTree(e.node)
    case _ => true
  }

  // ---------------------------------------------------------------------------
  // shouldSkipDirectory

  const SkipDirectories: set<string> := {".git", ".idea", ".vscode", "coverage", "dist", "node_modules"}

  /** `shouldSkipDirectory`: the lower-cased name is one of the excluded directory names. */
  predicate ShouldSkipDirectory(name: string) {
    LowerString(name) in SkipDirectories
  }

  /** Whether a name is excluded depends on its letters only up to case. */
  lemma SkipIgnoresCase(name: string)
    ensures ShouldSkipDirectory(name) == ShouldSkipDirectory(LowerString(name))
  {
    LowerStringIdempotent(name);
  }

  /** The lookup ignores letter case. */
  lemma SkipsAnyLetterCase()
    ensures ShouldSkipDirectory("Node_Modules")
    ensures ShouldSkipDirectory(".GIT")
  {
    assert LowerString("Node_Modules") == "node_modules";
    assert LowerString(".GIT") == ".git";
  }

  lemma KeepsOrdinaryDirectories()
    ensures !ShouldSkipDirectory("src")
    ensures !ShouldSkipDirectory("ci")
  {
    assert LowerString("src") == "src";
    assert LowerString("ci") == "ci";
  }
}
