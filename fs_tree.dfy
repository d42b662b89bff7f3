/** The directory tree both tree printers walk, as a value: what `os.listdir`
    would list in each directory and whether listing it raises, together with
    Python's `list.sort()` on names and `os.path.basename`. */
module FsTree {

  /** An entry of a directory: a file (anything `os.path.isdir` rejects) or a
      directory with what listing it gives. */
  datatype Node = File(name: string) | Dir(name: string, listing: Listing)

  /** `os.listdir` of a directory: its entries in the order the system gives
      them, or an exception (permission denied, vanished, ...). */
  datatype Listing = Readable(children: seq<Node>) | Unreadable

  /** Python's `<=` on strings: code point by code point, a prefix first. */
  predicate NameLe(a: string, b: string)
    decreases |a|
  {
    a == [] || (b != [] && (a[0] < b[0] || (a[0] == b[0] && NameLe(a[1..], b[1..]))))
  }

  lemma {:induction false} NameLeTotal(a: string, b: string)
    ensures NameLe(a, b) || NameLe(b, a)
    decreases |a|
  {
    if a != [] && b != [] && a[0] == b[0] {
      NameLeTotal(a[1..], b[1..]);
    }
  }

  lemma {:induction false} NameLeTrans(a: string, b: string, c: string)
    requires NameLe(a, b) && NameLe(b, c)
    ensures NameLe(a, c)
    decreases |a|
  {
    if a != [] && b != [] && c != [] && a[0] == b[0] == c[0] {
      NameLeTrans(a[1..], b[1..], c[1..]);
    }
  }

  /** Equal-prefixed, equal-length names compare like the first differing
      character, so `NameLe` is antisymmetric. */
  lemma {:induction false} NameLeAntisymmetric(a: string, b: string)
    requires NameLe(a, b) && NameLe(b, a)
    ensures a == b
    decreases |a|
  {
    if a != [] && b != [] {
      NameLeAntisymmetric(a[1..], b[1..]);
      assert a == [a[0]] + a[1..] && b == [b[0]] + b[1..];
    }
  }

  predicate SortedByName(s: seq<Node>) {
    forall i, j :: 0 <= i < j < |s| ==> NameLe(s[i].name, s[j].name)
  }

  /** Puts `x` in front of the first entry whose name is not smaller. */
  function Insert(x: Node, s: seq<Node>): (r: seq<Node>)
    ensures multiset(r) == multiset(s) + multiset{x}
    ensures |r| == |s| + 1
    decreases |s|
  {
    if s == [] then [x]
    else if NameLe(x.name, s[0].name) then [x] + s
    else
      assert s == [s[0]] + s[1..];
      [s[0]] + Insert(x, s[1..])
  }

  /** Inserting into a sorted listing keeps it sorted. */
  lemma {:induction false} InsertSorted(x: Node, s: seq<Node>)
    requires SortedByName(s)
    ensures SortedByName(Insert(x, s))
    decreases |s|
  {
    if s != [] {
      if NameLe(x.name, s[0].name) {
        var r := [x] + s;
        forall i, j | 0 <= i < j < |r| ensures NameLe(r[i].name, r[j].name) {
          if i == 0 && j > 1 {
            NameLeTrans(x.name, s[0].name, s[j - 1].name);
          }
        }
      } else {
        NameLeTotal(x.name, s[0].name);
        InsertSorted(x, s[1..]);
        var rest := Insert(x, s[1..]);
        forall k | 0 <= k < |rest| ensures NameLe(s[0].name, rest[k].name) {
          assert rest[k] in multiset(rest);
          if rest[k] != x {
            assert rest[k] in multiset(s[1..]);
            var m :| 0 <= m < |s[1..]| && s[1..][m] == rest[k];
            assert s[m + 1] == rest[k];
          }
        }
        var r := [s[0]] + rest;
        forall i, j | 0 <= i < j < |r| ensures NameLe(r[i].name, r[j].name) {
          if i == 0 {
            assert r[j] == rest[j - 1];
          } else {
            assert r[i] == rest[i - 1] && r[j] == rest[j - 1];
          }
        }
      }
    }
  }

  /** `items.sort()` on a listing, by name. */
  function SortByName(s: seq<Node>): (r: seq<Node>)
    ensures SortedByName(r)
    ensures multiset(r) == multiset(s)
    ensures |r| == |s|
    decreases |s|
  {
    if s == [] then []
    else
      assert s == [s[0]] + s[1..];
      InsertSorted(s[0], SortByName(s[1..]));
      Insert(s[0], SortByName(s[1..]))
  }

  /** Sorting keeps exactly the entries of the listing. */
  lemma SortedSameEntries(s: seq<Node>)
    ensures forall x :: x in SortByName(s) <==> x in s
  {
    forall x ensures x in SortByName(s) <==> x in s {
      assert x in SortByName(s) <==> x in multiset(SortByName(s));
      assert x in s <==> x in multiset(s);
    }
  }

  /** How many entries a listing holds, at every depth: the lines a full
      rendering of it prints. */
  function NodeCount(n: Node): nat
    decreases n
  {
    1 + if n.Dir? && n.listing.Readable? then ListCount(n.listing.children) else 0
  }

  function ListCount(s: seq<Node>): nat
    decreases s
  {
    if s == [] then 0 else NodeCount(s[0]) + ListCount(s[1..])
  }

  lemma {:induction false} ListCountInsert(x: Node, s: seq<Node>)
    ensures ListCount(Insert(x, s)) == NodeCount(x) + ListCount(s)
    decreases |s|
  {
    if s != [] && !NameLe(x.name, s[0].name) {
      ListCountInsert(x, s[1..]);
      assert Insert(x, s)[1..] == Insert(x, s[1..]);
    } else if s != [] {
      assert Insert(x, s)[1..] == s;
    }
  }

  /** Sorting neither adds nor loses entries at any depth. */
  lemma {:induction false} ListCountSorted(s: seq<Node>)
    ensures ListCount(SortByName(s)) == ListCount(s)
    decreases |s|
  {
    if s != [] {
      ListCountSorted(s[1..]);
      ListCountInsert(s[0], SortByName(s[1..]));
    }
  }

  /** Every directory at every depth can be listed. */
  predicate AllReadable(l: Listing)
    decreases l
  {
    l.Readable? && forall x :: x in l.children ==> x.Dir? ==> AllReadable(x.listing)
  }

  /** One printed line as the code builds it: the prefix, the connector chosen
      by whether the entry is the last of its listing, and the name. */
  datatype Row = Row(indent: string, isLast: bool, name: string)

  function Render(row: Row): (line: string)
    ensures |line| == |row.indent| + 4 + |row.name|
    ensures line[..|row.indent|] == row.indent
    ensures line[|row.indent|..|row.indent| + 4] == Connector(row.isLast)
    ensures line[|row.indent| + 4..] == row.name
  {
    row.indent + Connector(row.isLast) + row.name
  }

  /** The printed text of a series of rows, one line each. */
  function Lines(rows: seq<Row>): (lines: seq<string>)
    ensures |lines| == |rows|
    ensures forall k :: 0 <= k < |rows| ==> lines[k] == Render(rows[k])
  {
    seq(|rows|, k requires 0 <= k < |rows| => Render(rows[k]))
  }

  /** What follows the last `\` or `/` of a path. */
  function AfterLastSeparator(path: string): (r: string)
    ensures |r| <= |path|
    ensures forall i :: 0 <= i < |r| ==> r[i] != '\\' && r[i] != '/'
    ensures r == path[|path| - |r|..]
    ensures |r| < |path| ==> path[|path| - |r| - 1] in "\\/"
    decreases |path|
  {
    if path == [] then []
    else if path[|path| - 1] == '\\' || path[|path| - 1] == '/' then []
    else AfterLastSeparator(path[..|path| - 1]) + [path[|path| - 1]]
  }

  predicate IsSep(c: char) {
    c == '\\' || c == '/'
  }

  /** `normp.find(sep, start)` on a path whose `/` count as `\`: the first
      separator at or after `start`, or -1. */
  function FindSep(path: string, start: nat): (k: int)
    requires start <= |path|
    ensures k == -1 || (start <= k < |path| && IsSep(path[k]))
    ensures forall i :: start <= i < |path| && (k == -1 || i < k) ==> !IsSep(path[i])
    decreases |path| - start
  {
    if start == |path| then -1
    else if IsSep(path[start]) then start
    else FindSep(path, start + 1)
  }

  /** A path opening with two separators names a UNC share. */
  predicate IsUnc(path: string) {
    |path| >= 2 && IsSep(path[0]) && IsSep(path[1])
  }

  /** The length of `ntpath.splitdrive`'s drive. A UNC drive runs up to the
      second separator after the opening pair, and is the whole path when there
      is no such separator; otherwise a colon at index 1 ends a drive letter. */
  function DriveLength(path: string): (d: nat)
    ensures d <= |path|
    ensures !IsUnc(path) ==> d == if |path| >= 2 && path[1] == ':' then 2 else 0
    ensures IsUnc(path) ==>
      && 2 <= d
      && (d == |path| || IsSep(path[d]))
      && (d < |path| ==> exists i :: 2 <= i < d && IsSep(path[i]))
      && (forall i, j :: 2 <= i < j < d ==> !(IsSep(path[i]) && IsSep(path[j])))
  {
    if IsUnc(path) then
      var i := FindSep(path, 2);
      if i == -1 then |path|
      else
        var j := FindSep(path, i + 1);
        if j == -1 then |path| else j
    else if |path| >= 2 && path[1] == ':' then 2
    else 0
  }

  /** `ntpath.basename`: the longest separator-free end of what follows the
      drive, so it reaches back to the last separator or to the drive. */
  function Basename(path: string): (r: string)
    ensures |r| <= |path| - DriveLength(path)
    ensures forall i :: 0 <= i < |r| ==> !IsSep(r[i])
    ensures r == path[|path| - |r|..]
    ensures |r| < |path| - DriveLength(path) ==> IsSep(path[|path| - |r| - 1])
  {
    var tail := path[DriveLength(path)..];
    var r := AfterLastSeparator(tail);
    assert tail[|tail| - |r|..] == path[|path| - |r|..];
    assert |r| < |tail| ==> tail[|tail| - |r| - 1] == path[|path| - |r| - 1];
    r
  }

  /** A path under a drive letter keeps its final name. */
  lemma DriveLetterKeepsName()
    ensures Basename("D:\\x") == "x"
  {
    var p := "D:\\x";
    assert !IsUnc(p) && DriveLength(p) == 2;
    assert p[2..] == "\\x" && "\\x"[..1] == "\\";
    assert AfterLastSeparator("\\") == "";
    assert AfterLastSeparator("\\x") == "x";
  }

  /** A UNC share root is all drive, so it has no last component. */
  lemma ShareRootHasNoName()
    ensures Basename("\\\\server\\share") == ""
  {
    var unc := "\\\\server\\share";
    assert IsSep(unc[8]) && FindSep(unc, 2) == 8;
    assert FindSep(unc, 9) == -1;
    assert DriveLength(unc) == 14;
  }

  /** The header line both scripts print above the tree. */
  function Header(rootPath: string): (r: string)
    ensures |r| == |Basename(rootPath)| + 1
    ensures r[..|r| - 1] == Basename(rootPath) && r[|r| - 1] == '/'
    ensures forall i :: 0 <= i < |r| - 1 ==> r[i] != '\\' && r[i] != '/'
  {
    Basename(rootPath) + "/"
  }

  const Tee: string := "├── "
  const Elbow: string := "└── "
  const Pipe: string := "│   "
  const Blank: string := "    "

  /** The connector in front of an entry: the last one gets the elbow. */
  function Connector(isLast: bool): (r: string)
    ensures |r| == 4
  {
    if isLast then Elbow else Tee
  }

  /** The prefix extension for an entry's children: below the last entry no
      vertical line continues. */
  function Extension(isLast: bool): (r: string)
    ensures |r| == 4
  {
    if isLast then Blank else Pipe
  }

  /** An entry's own row and the rows beneath it. */
  type Block = (Row, seq<Row>)

  /** Blocks printed one after the other. */
  function Flat(bs: seq<Block>): seq<Row>
    decreases |bs|
  {
    if bs == [] then [] else [bs[0].0] + bs[0].1 + Flat(bs[1..])
  }

  /** Where the row of block `k` starts in `Flat(bs)`. */
  function Start(bs: seq<Block>, k: nat): nat
    requires k < |bs|
    decreases k
  {
    if k == 0 then 0 else 1 + |bs[0].1| + Start(bs[1..], k - 1)
  }

  /** What is put in front of a sequence shifts its positions. */
  lemma Shifted(h: seq<Row>, rest: seq<Row>, at: nat, n: nat)
    requires at + 1 + n <= |rest|
    ensures (h + rest)[|h| + at] == rest[at]
    ensures (h + rest)[|h| + at + 1..|h| + at + 1 + n] == rest[at + 1..at + 1 + n]
  {
  }

  /** A row and the rows after it, at the front of a sequence. */
  lemma Front(row: Row, below: seq<Row>, rest: seq<Row>)
    ensures ([row] + below + rest)[0] == row
    ensures ([row] + below + rest)[1..1 + |below|] == below
  {
    assert ([row] + below + rest)[1..1 + |below|] == ([row] + below)[1..];
  }

  /** Block `k` is found at its start, its row first. */
  lemma {:induction false} FlatAt(bs: seq<Block>, k: nat)
    requires k < |bs|
    ensures Start(bs, k) + 1 + |bs[k].1| <= |Flat(bs)|
    ensures Flat(bs)[Start(bs, k)] == bs[k].0
    ensures Flat(bs)[Start(bs, k) + 1..Start(bs, k) + 1 + |bs[k].1|] == bs[k].1
    decreases k
  {
    var rest := Flat(bs[1..]);
    assert Flat(bs) == [bs[0].0] + bs[0].1 + rest;
    if k == 0 {
      Front(bs[0].0, bs[0].1, rest);
    } else {
      FlatAt(bs[1..], k - 1);
      assert bs[1..][k - 1] == bs[k];
      assert Start(bs, k) == |[bs[0].0] + bs[0].1| + Start(bs[1..], k - 1);
      Shifted([bs[0].0] + bs[0].1, rest, Start(bs[1..], k - 1), |bs[k].1|);
    }
  }
}
