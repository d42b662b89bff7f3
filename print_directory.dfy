/** `print_tree` of the full tree printer: every entry of every directory,
    sorted by name at each level, one row per entry in pre-order. Listing a
    directory is not guarded, so the first unreadable directory ends the
    whole run with an exception after the rows printed so far. */
module PrintDirectory {
  import opened FsTree

  /** The rows printed and whether an exception escaped. */
  datatype Output = Output(rows: seq<Row>, raised: bool)

  /** `print_tree(start_path, prefix)` for the directory whose listing is `l`. */
  function PrintTree(l: Listing, prefix: string): Output
    decreases l, if l.Readable? then |l.children| + 1 else 0
  {
    match l
    case Unreadable => Output([], true)
    case Readable(children) =>
      SortedSameEntries(children);
      PrintItems(SortByName(children), prefix, l)
  }

  /** The `for` loop of `print_tree` over the sorted entries still to print;
      `parent` is the listing they come from. */
  function PrintItems(items: seq<Node>, prefix: string, ghost parent: Listing): Output
    requires parent.Readable? && forall x :: x in items ==> x in parent.children
    decreases parent, |items|
  {
    if items == [] then Output([], false)
    else
      var x := items[0];
      assert x in parent.children;
      var isLast := |items| == 1;
      var row := Row(prefix, isLast, x.name);
      var sub := if x.Dir? then PrintTree(x.listing, prefix + Extension(isLast)) else Output([], false);
      if sub.raised then Output([row] + sub.rows, true)
      else
        var rest := PrintItems(items[1..], prefix, parent);
        Output([row] + sub.rows + rest.rows, rest.raised)
  }

  /** Every row of a rendering starting at `prefix` is indented by at least
      `prefix`. */
  predicate IndentedBy(rows: seq<Row>, prefix: string) {
    forall k :: 0 <= k < |rows| ==> prefix <= rows[k].indent
  }

  /** Indentation by `prefix` survives concatenation. */
  lemma IndentedConcat(a: seq<Row>, b: seq<Row>, prefix: string)
    requires IndentedBy(a, prefix) && IndentedBy(b, prefix)
    ensures IndentedBy(a + b, prefix)
  {
    forall k | 0 <= k < |a + b| ensures prefix <= (a + b)[k].indent {
      if k >= |a| {
        assert (a + b)[k] == b[k - |a|];
      }
    }
  }

  /** Rows indented by a longer prefix are indented by every prefix of it. */
  lemma IndentedWeaken(rows: seq<Row>, prefix: string, ext: string)
    requires prefix <= ext && IndentedBy(rows, ext)
    ensures IndentedBy(rows, prefix)
  {
    forall k | 0 <= k < |rows| ensures prefix <= rows[k].indent {
      assert ext <= rows[k].indent;
    }
  }

  /** Every entry of the listing, and of every directory below it, can be
      listed. */
  predicate ReadableBelow(items: seq<Node>) {
    forall x :: x in items ==> x.Dir? ==> AllReadable(x.listing)
  }

  /** A run raises exactly when some directory at some depth cannot be listed. */
  lemma {:induction false} TreeRaised(l: Listing, prefix: string)
    ensures PrintTree(l, prefix).raised <==> !AllReadable(l)
    decreases l, if l.Readable? then |l.children| + 1 else 0
  {
    if l.Readable? {
      SortedSameEntries(l.children);
      ItemsRaised(SortByName(l.children), prefix, l);
    }
  }

  lemma {:induction false} ItemsRaised(items: seq<Node>, prefix: string, parent: Listing)
    requires parent.Readable? && forall x :: x in items ==> x in parent.children
    ensures PrintItems(items, prefix, parent).raised <==> !ReadableBelow(items)
    decreases parent, |items|
  {
    if items != [] {
      var x := items[0];
      assert x in parent.children;
      var sub := if x.Dir? then PrintTree(x.listing, prefix + Extension(|items| == 1)) else Output([], false);
      if x.Dir? {
        TreeRaised(x.listing, prefix + Extension(|items| == 1));
      }
      if !sub.raised {
        ItemsRaised(items[1..], prefix, parent);
        assert items == [x] + items[1..];
        assert ReadableBelow(items) <==> ReadableBelow(items[1..]);
      }
    }
  }

  /** A run that does not raise prints one row per entry, at every depth. */
  lemma {:induction false} TreeCount(l: Listing, prefix: string)
    requires AllReadable(l)
    ensures |PrintTree(l, prefix).rows| == ListCount(l.children)
    decreases l, |l.children| + 1
  {
    SortedSameEntries(l.children);
    ItemsCount(SortByName(l.children), prefix, l);
    ListCountSorted(l.children);
  }

  lemma {:induction false} ItemsCount(items: seq<Node>, prefix: string, parent: Listing)
    requires parent.Readable? && forall x :: x in items ==> x in parent.children
    requires ReadableBelow(items)
    ensures |PrintItems(items, prefix, parent).rows| == ListCount(items)
    decreases parent, |items|
  {
    if items != [] {
      var x := items[0];
      assert x in parent.children;
      if x.Dir? {
        TreeCount(x.listing, prefix + Extension(|items| == 1));
        TreeRaised(x.listing, prefix + Extension(|items| == 1));
      }
      assert ReadableBelow(items[1..]);
      ItemsCount(items[1..], prefix, parent);
    }
  }

  /** Every row is indented by at least the prefix it was printed under, and
      the first row is the first entry in name order, with the elbow exactly
      when it is the only entry. */
  lemma {:induction false} TreeIndented(l: Listing, prefix: string)
    ensures IndentedBy(PrintTree(l, prefix).rows, prefix)
    ensures l.Readable? && l.children != [] ==>
      |PrintTree(l, prefix).rows| > 0 &&
      PrintTree(l, prefix).rows[0] == Row(prefix, |l.children| == 1, SortByName(l.children)[0].name)
    decreases l, if l.Readable? then |l.children| + 1 else 0
  {
    if l.Readable? {
      SortedSameEntries(l.children);
      ItemsIndented(SortByName(l.children), prefix, l);
    }
  }

  lemma {:induction false} ItemsIndented(items: seq<Node>, prefix: string, parent: Listing)
    requires parent.Readable? && forall x :: x in items ==> x in parent.children
    ensures IndentedBy(PrintItems(items, prefix, parent).rows, prefix)
    ensures items != [] ==>
      |PrintItems(items, prefix, parent).rows| > 0 &&
      PrintItems(items, prefix, parent).rows[0] == Row(prefix, |items| == 1, items[0].name)
    decreases parent, |items|
  {
    if items != [] {
      var x := items[0];
      assert x in parent.children;
      var isLast := |items| == 1;
      var ext := prefix + Extension(isLast);
      var sub := if x.Dir? then PrintTree(x.listing, ext) else Output([], false);
      if x.Dir? {
        TreeIndented(x.listing, ext);
        IndentedWeaken(sub.rows, prefix, ext);
      }
      var rest := if sub.raised then [] else PrintItems(items[1..], prefix, parent).rows;
      if !sub.raised {
        ItemsIndented(items[1..], prefix, parent);
      }
      var head := [Row(prefix, isLast, x.name)];
      assert head + sub.rows + rest == PrintItems(items, prefix, parent).rows;
      IndentedConcat(head, sub.rows, prefix);
      IndentedConcat(head + sub.rows, rest, prefix);
    }
  }

  /** The rows of one level: each entry in order at `prefix`, the elbow on
      the last. */
  function Siblings(items: seq<Node>, prefix: string): (r: seq<Row>)
    ensures |r| == |items|
    ensures forall k :: 0 <= k < |items| ==> r[k] == Row(prefix, k == |items| - 1, items[k].name)
  {
    seq(|items|, k requires 0 <= k < |items| => Row(prefix, k == |items| - 1, items[k].name))
  }

  /** The rows printed at exactly the indentation `prefix`, in order. */
  function AtLevel(rows: seq<Row>, prefix: string): seq<Row>
    decreases |rows|
  {
    if rows == [] then []
    else (if rows[0].indent == prefix then [rows[0]] else []) + AtLevel(rows[1..], prefix)
  }

  lemma {:induction false} AtLevelConcat(a: seq<Row>, b: seq<Row>, prefix: string)
    ensures AtLevel(a + b, prefix) == AtLevel(a, prefix) + AtLevel(b, prefix)
    decreases |a|
  {
    if a == [] {
      assert a + b == b;
    } else {
      assert (a + b)[0] == a[0] && (a + b)[1..] == a[1..] + b;
      AtLevelConcat(a[1..], b, prefix);
    }
  }

  /** Rows indented by a longer prefix have none at `prefix` itself. */
  lemma {:induction false} AtLevelDeeper(rows: seq<Row>, prefix: string, ext: string)
    requires |ext| > |prefix| && IndentedBy(rows, ext)
    ensures AtLevel(rows, prefix) == []
    decreases |rows|
  {
    if rows != [] {
      assert ext <= rows[0].indent;
      assert IndentedBy(rows[1..], ext) by {
        forall k | 0 <= k < |rows[1..]| ensures ext <= rows[1..][k].indent {
          assert rows[1..][k] == rows[k + 1];
        }
      }
      AtLevelDeeper(rows[1..], prefix, ext);
    }
  }

  /** Within one directory the rows at its own prefix are its entries in name
      order, each with its connector, the elbow on the last; every other row
      lies deeper, inside a subdirectory. When a directory below cannot be
      listed these rows stop early. */
  lemma TreeLevel(l: Listing, prefix: string)
    requires l.Readable?
    ensures AtLevel(PrintTree(l, prefix).rows, prefix) <= Siblings(SortByName(l.children), prefix)
    ensures !PrintTree(l, prefix).raised ==>
      AtLevel(PrintTree(l, prefix).rows, prefix) == Siblings(SortByName(l.children), prefix)
  {
    SortedSameEntries(l.children);
    ItemsLevel(SortByName(l.children), prefix, l);
  }

  lemma {:induction false} ItemsLevel(items: seq<Node>, prefix: string, parent: Listing)
    requires parent.Readable? && forall x :: x in items ==> x in parent.children
    ensures AtLevel(PrintItems(items, prefix, parent).rows, prefix) <= Siblings(items, prefix)
    ensures !PrintItems(items, prefix, parent).raised ==>
      AtLevel(PrintItems(items, prefix, parent).rows, prefix) == Siblings(items, prefix)
    decreases |items|
  {
    if items != [] {
      var x := items[0];
      assert x in parent.children;
      var isLast := |items| == 1;
      var ext := prefix + Extension(isLast);
      var sub := if x.Dir? then PrintTree(x.listing, ext) else Output([], false);
      if x.Dir? {
        TreeIndented(x.listing, ext);
      }
      AtLevelDeeper(sub.rows, prefix, ext);
      var head := [Row(prefix, isLast, x.name)];
      assert AtLevel(head, prefix) == head by {
        assert head[1..] == [];
      }
      AtLevelConcat(head, sub.rows, prefix);
      var sibs := Siblings(items, prefix);
      var tail := Siblings(items[1..], prefix);
      assert sibs == head + tail by {
        forall k | 1 <= k < |items| ensures sibs[k] == tail[k - 1] {
          assert items[1..][k - 1] == items[k];
        }
      }
      if !sub.raised {
        ItemsLevel(items[1..], prefix, parent);
        var rest := PrintItems(items[1..], prefix, parent);
        assert PrintItems(items, prefix, parent).rows == (head + sub.rows) + rest.rows;
        AtLevelConcat(head + sub.rows, rest.rows, prefix);
      }
    }
  }

  /** The rows printed beneath entry `x` of a level printed under `prefix`:
      its subtree, one connector column deeper, and nothing for a file. */
  function Beneath(x: Node, prefix: string, isLast: bool): seq<Row> {
    if x.Dir? then PrintTree(x.listing, prefix + Extension(isLast)).rows else []
  }

  /** The blocks of the loop over `items`, one per entry in order: its row,
      then what is printed beneath it. */
  function Blocks(items: seq<Node>, prefix: string): (bs: seq<Block>)
    ensures |bs| == |items|
    ensures forall k :: 0 <= k < |items| ==>
      bs[k] == (Row(prefix, k == |items| - 1, items[k].name), Beneath(items[k], prefix, k == |items| - 1))
  {
    seq(|items|, k requires 0 <= k < |items| =>
      (Row(prefix, k == |items| - 1, items[k].name), Beneath(items[k], prefix, k == |items| - 1)))
  }

  /** A loop that does not raise prints in pre-order: each entry's row, then
      its whole subtree, before the next entry. */
  lemma {:induction false} ItemsAreBlocks(items: seq<Node>, prefix: string, parent: Listing)
    requires parent.Readable? && forall x :: x in items ==> x in parent.children
    requires ReadableBelow(items)
    ensures PrintItems(items, prefix, parent).rows == Flat(Blocks(items, prefix))
    decreases |items|
  {
    if items != [] {
      var x := items[0];
      assert x in parent.children;
      if x.Dir? {
        TreeRaised(x.listing, prefix + Extension(|items| == 1));
      }
      var bs := Blocks(items, prefix);
      assert bs[1..] == Blocks(items[1..], prefix) by {
        forall k | 0 <= k < |items| - 1 ensures bs[1..][k] == Blocks(items[1..], prefix)[k] {
          assert items[1..][k] == items[k + 1];
        }
      }
      assert ReadableBelow(items[1..]) by {
        forall y | y in items[1..] ensures y.Dir? ==> AllReadable(y.listing) {
          assert y in items;
        }
      }
      ItemsAreBlocks(items[1..], prefix, parent);
    }
  }

  /** A run that does not raise prints the sorted entries as blocks: entry k's
      row at the position `Start` gives, its subtree right after it. */
  lemma TreeAreBlocks(l: Listing, prefix: string)
    requires AllReadable(l)
    ensures PrintTree(l, prefix).rows == Flat(Blocks(SortByName(l.children), prefix))
  {
    SortedSameEntries(l.children);
    ItemsAreBlocks(SortByName(l.children), prefix, l);
  }
}
