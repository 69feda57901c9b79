/** The `tree` function of the program that the file-structure probe sends to the
    board (`_TREE_CODE`, serial_plugin/serial_get_file_structure.py), run against an
    abstract file system: the lines it prints. */
module TreeProgram {
  import opened Outcomes

  /** What the board's file system answers for one name in a directory listing:
      `mode` is the first field of `os.stat`, absent when `stat` raises, and
      `listing` is what `os.listdir` answers for it. */
  datatype Entry = Entry(name: string, mode: Option<nat>, listing: Listing)

  /** `os.listdir` either raises or returns the names in a directory. */
  datatype Listing = Unreadable | Listed(entries: seq<Entry>)

  const DIR_FLAG: nat := 0x4000
  /** The connectors in front of an entry's name: `├── `, and `└── ` for the last. */
  const TEE := "\U{251C}\U{2500}\U{2500} "
  const ELBOW := "\U{2514}\U{2500}\U{2500} "
  /** What a directory's entries add to the prefix: `│   `, and four blanks below
      the last entry. */
  const PIPE := "\U{2502}   "
  const BLANK := "    "

  /** `mode & 0x4000` is non-zero. */
  predicate IsDir(mode: nat) {
    (mode / DIR_FLAG) % 2 == 1
  }

  predicate Descends(e: Entry) {
    e.mode.Some? && IsDir(e.mode.value)
  }

  /** Python's `<=` on `str`: code point by code point. */
  predicate LexLe(a: string, b: string)
    decreases |a|
  {
    a == [] || (b != [] && (a[0] < b[0] || (a[0] == b[0] && LexLe(a[1..], b[1..]))))
  }

  lemma {:induction false} LexLeTotal(a: string, b: string)
    ensures LexLe(a, b) || LexLe(b, a)
    decreases |a|
  {
    if a != [] && b != [] && a[0] == b[0] {
      LexLeTotal(a[1..], b[1..]);
    }
  }

  lemma {:induction false} LexLeTrans(a: string, b: string, c: string)
    requires LexLe(a, b) && LexLe(b, c)
    ensures LexLe(a, c)
    decreases |a|
  {
    if a != [] && a[0] == b[0] && b[0] == c[0] {
      LexLeTrans(a[1..], b[1..], c[1..]);
    }
  }

  predicate SortedByName(s: seq<Entry>) {
    forall i, j :: 0 <= i < j < |s| ==> LexLe(s[i].name, s[j].name)
  }

  /** Every name in `s` is at least `name`. */
  predicate Below(name: string, s: seq<Entry>) {
    forall j :: 0 <= j < |s| ==> LexLe(name, s[j].name)
  }

  lemma ConsSorted(x: Entry, s: seq<Entry>)
    requires SortedByName(s) && Below(x.name, s)
    ensures SortedByName([x] + s)
  {
    var r := [x] + s;
    forall i, j | 0 <= i < j < |r| ensures LexLe(r[i].name, r[j].name) {
      if i > 0 {
        assert r[i] == s[i - 1] && r[j] == s[j - 1];
      }
    }
  }

  lemma BelowFirst(name: string, s: seq<Entry>)
    requires SortedByName(s) && s != [] && LexLe(name, s[0].name)
    ensures Below(name, s)
  {
    forall j | 0 <= j < |s| ensures LexLe(name, s[j].name) {
      if j > 0 { LexLeTrans(name, s[0].name, s[j].name); }
    }
  }

  lemma HeadBelow(s: seq<Entry>)
    requires SortedByName(s) && s != []
    ensures Below(s[0].name, s[1..])
  {
    forall j | 0 <= j < |s[1..]| ensures LexLe(s[0].name, s[1..][j].name) {
      assert s[1..][j] == s[j + 1];
    }
  }

  /** A name below every entry of `s` and below `e` is below anything made of them. */
  lemma BelowInsert(name: string, e: Entry, s: seq<Entry>, t: seq<Entry>)
    requires Below(name, s) && LexLe(name, e.name)
    requires forall x :: x in t ==> x == e || x in s
    ensures Below(name, t)
  {
    forall j | 0 <= j < |t| ensures LexLe(name, t[j].name) {
      assert t[j] in t;
      if t[j] != e {
        var i :| 0 <= i < |s| && s[i] == t[j];
      }
    }
  }

  /** One step of the insertion sort that orders a listing. */
  function Insert(e: Entry, s: seq<Entry>): (r: seq<Entry>)
    requires SortedByName(s)
    ensures SortedByName(r)
    ensures |r| == |s| + 1
    ensures forall x :: x in r <==> x == e || x in s
    ensures multiset(r) == multiset(s) + multiset{e}
  {
    if s == [] then [e]
    else if LexLe(e.name, s[0].name) then
      BelowFirst(e.name, s);
      ConsSorted(e, s);
      [e] + s
    else
      var head, tail := s[0], s[1..];
      assert s == [head] + tail;
      var t := Insert(e, tail);
      assert Below(head.name, t) by {
        LexLeTotal(e.name, head.name);
        HeadBelow(s);
        BelowInsert(head.name, e, tail, t);
      }
      ConsSorted(head, t);
      [head] + t
  }

  /** `files.sort()`: the listing ordered by name, with the same entries. */
  function SortByName(s: seq<Entry>): (r: seq<Entry>)
    ensures SortedByName(r)
    ensures multiset(r) == multiset(s)
  {
    if s == [] then []
    else
      assert s == [s[0]] + s[1..];
      Insert(s[0], SortByName(s[1..]))
  }

  function Connector(last: bool): string {
    if last then ELBOW else TEE
  }

  function Extension(last: bool): string {
    if last then BLANK else PIPE
  }

  /** Every line begins with `prefix` and has at least four characters after it: the
      connector of one of the directory's own entries, or, on the lines of a
      subdirectory, the extension `│   ` or four blanks. */
  predicate Indented(lines: seq<string>, prefix: string) {
    forall i :: 0 <= i < |lines| ==> |prefix| + 4 <= |lines[i]| && lines[i][..|prefix|] == prefix
  }

  /** `tree(path, prefix)` for a directory whose `os.listdir` answers `listing`:
      the lines it prints. */
  function Tree(listing: Listing, prefix: string): (lines: seq<string>)
    ensures Indented(lines, prefix)
    ensures listing.Unreadable? ==> lines == []
    decreases listing, 1
  {
    if listing.Unreadable? then []
    else
      var files := SortByName(listing.entries);
      assert forall e :: e in files ==> e in multiset(listing.entries);
      Entries(listing, files, prefix, 0)
  }

  /** The loop over the sorted `files` of a directory, from position `idx` on: each
      entry's line, then, for a directory, the lines of its subtree. */
  function Entries(listing: Listing, files: seq<Entry>, prefix: string, idx: nat): (lines: seq<string>)
    requires listing.Listed? && idx <= |files|
    requires forall e :: e in files ==> e in listing.entries
    ensures Indented(lines, prefix)
    decreases listing, 0, |files| - idx
  {
    if idx == |files| then []
    else
      var e := files[idx];
      assert e in listing.entries;
      var last := idx == |files| - 1;
      var line := prefix + Connector(last) + e.name;
      var below := if Descends(e) then Tree(e.listing, prefix + Extension(last)) else [];
      var rest := Entries(listing, files, prefix, idx + 1);
      assert Indented(below, prefix) by {
        forall i | 0 <= i < |below| ensures |prefix| + 4 <= |below[i]| && below[i][..|prefix|] == prefix {
          assert below[i][..|prefix|] == below[i][..|prefix + Extension(last)|][..|prefix|];
        }
      }
      assert line[..|prefix|] == prefix;
      IndentedAppend([line] + below, rest, prefix);
      IndentedAppend([line], below, prefix);
      [line] + below + rest
  }

  lemma IndentedAppend(a: seq<string>, b: seq<string>, prefix: string)
    requires Indented(a, prefix) && Indented(b, prefix)
    ensures Indented(a + b, prefix)
  {
    forall i | 0 <= i < |a + b| ensures |prefix| + 4 <= |(a + b)[i]| && (a + b)[i][..|prefix|] == prefix {
      if i >= |a| { assert (a + b)[i] == b[i - |a|]; }
    }
  }

  /** The line of an entry listed directly under `prefix`: its connector begins
      right after the prefix. Lines of deeper entries have `│` or a blank there. */
  predicate IsHead(line: string, depth: nat) {
    depth < |line| && (line[depth] == TEE[0] || line[depth] == ELBOW[0])
  }

  function Heads(lines: seq<string>, depth: nat): seq<string> {
    if lines == [] then []
    else (if IsHead(lines[0], depth) then [lines[0]] else []) + Heads(lines[1..], depth)
  }

  /** What a directory's own entries print, in order: the prefix, `└── ` for the
      last entry and `├── ` for the others, then the name. */
  function HeadLines(files: seq<Entry>, prefix: string): (heads: seq<string>) {
    seq(|files|, i requires 0 <= i < |files| => prefix + Connector(i == |files| - 1) + files[i].name)
  }

  lemma {:induction false} HeadsAppend(a: seq<string>, b: seq<string>, depth: nat)
    ensures Heads(a + b, depth) == Heads(a, depth) + Heads(b, depth)
  {
    if a == [] {
      assert a + b == b;
    } else {
      var first := if IsHead(a[0], depth) then [a[0]] else [];
      HeadsFront(a, b, depth);
      HeadsAppend(a[1..], b, depth);
      assert first + (Heads(a[1..], depth) + Heads(b, depth)) == first + Heads(a[1..], depth) + Heads(b, depth);
    }
  }

  lemma HeadsFront(a: seq<string>, b: seq<string>, depth: nat)
    requires a != []
    ensures Heads(a + b, depth) == (if IsHead(a[0], depth) then [a[0]] else []) + Heads(a[1..] + b, depth)
  {
    assert (a + b)[0] == a[0] && (a + b)[1..] == a[1..] + b;
  }

  /** The lines below a directory's entry are indented one level further, so none of
      them is a line of the directory's own entries. */
  lemma {:induction false} NoHeadsBelow(lines: seq<string>, prefix: string, last: bool)
    requires Indented(lines, prefix + Extension(last))
    ensures Heads(lines, |prefix|) == []
  {
    if lines != [] {
      var l := lines[0];
      assert l[..|prefix + Extension(last)|] == prefix + Extension(last);
      assert l[|prefix|] == Extension(last)[0];
      assert lines[1..][..] == lines[1..];
      assert Indented(lines[1..], prefix + Extension(last)) by {
        forall i | 0 <= i < |lines[1..]| ensures |prefix + Extension(last)| + 4 <= |lines[1..][i]| {
          assert lines[1..][i] == lines[i + 1];
        }
      }
      NoHeadsBelow(lines[1..], prefix, last);
    }
  }

  lemma HeadOfLine(prefix: string, last: bool, name: string)
    ensures Heads([prefix + Connector(last) + name], |prefix|) == [prefix + Connector(last) + name]
  {
    var line := prefix + Connector(last) + name;
    assert line[|prefix|] == Connector(last)[0];
  }

  /** What entry `idx` contributes below its own line. */
  function Subtree(files: seq<Entry>, prefix: string, idx: nat): seq<string>
    requires idx < |files|
  {
    if Descends(files[idx]) then Tree(files[idx].listing, prefix + Extension(idx == |files| - 1)) else []
  }

  lemma EntriesStep(listing: Listing, files: seq<Entry>, prefix: string, idx: nat)
    requires listing.Listed? && idx < |files|
    requires forall e :: e in files ==> e in listing.entries
    ensures Entries(listing, files, prefix, idx)
            == [HeadLines(files, prefix)[idx]] + Subtree(files, prefix, idx) + Entries(listing, files, prefix, idx + 1)
  {
  }

  lemma HeadsStep(name: string, below: seq<string>, rest: seq<string>, prefix: string, last: bool)
    requires Indented(below, prefix + Extension(last))
    ensures var line := prefix + Connector(last) + name;
            Heads([line] + below + rest, |prefix|) == [line] + Heads(rest, |prefix|)
  {
    var line := prefix + Connector(last) + name;
    HeadsAppend([line] + below, rest, |prefix|);
    HeadsAppend([line], below, |prefix|);
    HeadOfLine(prefix, last, name);
    NoHeadsBelow(below, prefix, last);
  }

  lemma {:induction false} EntriesHeads(listing: Listing, files: seq<Entry>, prefix: string, idx: nat)
    requires listing.Listed? && idx <= |files|
    requires forall e :: e in files ==> e in listing.entries
    ensures Heads(Entries(listing, files, prefix, idx), |prefix|) == HeadLines(files, prefix)[idx..]
    decreases |files| - idx
  {
    if idx < |files| {
      var h := HeadLines(files, prefix);
      EntriesHeadsStep(listing, files, prefix, idx);
      EntriesHeads(listing, files, prefix, idx + 1);
      SliceFront(h, idx);
    }
  }

  lemma SliceFront<T>(s: seq<T>, i: nat)
    requires i < |s|
    ensures s[i..] == [s[i]] + s[i + 1..]
  {
  }

  lemma EntriesHeadsStep(listing: Listing, files: seq<Entry>, prefix: string, idx: nat)
    requires listing.Listed? && idx < |files|
    requires forall e :: e in files ==> e in listing.entries
    ensures Heads(Entries(listing, files, prefix, idx), |prefix|)
            == [HeadLines(files, prefix)[idx]] + Heads(Entries(listing, files, prefix, idx + 1), |prefix|)
  {
    var last := idx == |files| - 1;
    assert HeadLines(files, prefix)[idx] == prefix + Connector(last) + files[idx].name;
    EntriesStep(listing, files, prefix, idx);
    HeadsStep(files[idx].name, Subtree(files, prefix, idx), Entries(listing, files, prefix, idx + 1), prefix, last);
  }

  /** The lines of a directory's own entries can be picked out of everything `tree`
      prints for it: they come in sorted order, and only the last uses `└── `. */
  lemma TreeHeads(listing: Listing, prefix: string)
    requires listing.Listed?
    ensures Heads(Tree(listing, prefix), |prefix|) == HeadLines(SortByName(listing.entries), prefix)
  {
    var files := SortByName(listing.entries);
    assert forall e :: e in files ==> e in multiset(listing.entries);
    EntriesHeads(listing, files, prefix, 0);
  }
}
