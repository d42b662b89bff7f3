/** `print_tree` of the selective tree printer: a directory that cannot be
    listed is skipped silently, names starting with a dot are not shown, and
    below the top level only directories named in `IncludeFolders` are
    opened. */
module PrintSpecificFolder {
  import opened FsTree
  import PrintDirectory

  /** The folder names opened below the top level. */
  const IncludeFolders: set<string> := {"Comments", "Department", "Grievances", "Users"}

  predicate Hidden(name: string) {
    |name| > 0 && name[0] == '.'
  }

  /** The list comprehension dropping hidden entries, keeping the order. */
  function Visible(items: seq<Node>): (r: seq<Node>)
    ensures forall x :: x in r <==> x in items && !Hidden(x.name)
    ensures |r| <= |items|
    ensures (forall x :: x in items ==> !Hidden(x.name)) ==> r == items
    decreases |items|
  {
    if items == [] then []
    else
      assert items == [items[0]] + items[1..];
      if Hidden(items[0].name) then Visible(items[1..]) else [items[0]] + Visible(items[1..])
  }

  /** Whether the loop recurses into an entry printed under `prefix`. */
  predicate Opens(x: Node, prefix: string) {
    x.Dir? && (x.name in IncludeFolders || prefix == "")
  }

  /** `print_tree(start_path, prefix)` for the directory whose listing is `l`:
      nothing when it cannot be listed, otherwise at least one row per visible
      entry. */
  function PrintTree(l: Listing, prefix: string): (r: seq<Row>)
    ensures l.Unreadable? ==> r == []
    ensures l.Readable? ==> |r| >= |Visible(SortByName(l.children))|
    decreases l, if l.Readable? then |l.children| + 1 else 0
  {
    match l
    case Unreadable => []
    case Readable(children) =>
      SortedSameEntries(children);
      PrintItems(Visible(SortByName(children)), prefix, l)
  }

  /** The `for` loop over the visible sorted entries still to print; the last
      of them, not the last of the listing, gets the elbow. Each entry prints
      at least its own row, the first entry's row first. */
  function PrintItems(items: seq<Node>, prefix: string, ghost parent: Listing): (r: seq<Row>)
    requires parent.Readable? && forall x :: x in items ==> x in parent.children
    ensures |r| >= |items|
    ensures items != [] ==> r[0] == Row(prefix, |items| == 1, items[0].name)
    decreases parent, |items|
  {
    if items == [] then []
    else
      var x := items[0];
      assert x in parent.children;
      var isLast := |items| == 1;
      [Row(prefix, isLast, x.name)]
        + (if Opens(x, prefix) then PrintTree(x.listing, prefix + Extension(isLast)) else [])
        + PrintItems(items[1..], prefix, parent)
  }

  /** The rows the loop prints beneath entry `x` of a level printed under
      `prefix`: the subtree when it opens `x`, nothing otherwise. */
  function Below(x: Node, prefix: string, isLast: bool): seq<Row> {
    if Opens(x, prefix) then PrintTree(x.listing, prefix + Extension(isLast)) else []
  }

  /** Something is printed beneath an entry exactly when the loop opens it
      and it is a readable directory with a visible entry; the first row
      beneath it is then its first visible entry, one level deeper. */
  lemma BelowShown(x: Node, prefix: string, isLast: bool)
    ensures !Opens(x, prefix) ==> Below(x, prefix, isLast) == []
    ensures Opens(x, prefix) ==>
      (Below(x, prefix, isLast) != [] <==>
         x.listing.Readable? && Visible(SortByName(x.listing.children)) != [])
    ensures Opens(x, prefix) && Below(x, prefix, isLast) != [] ==>
      var shown := Visible(SortByName(x.listing.children));
      Below(x, prefix, isLast)[0] == Row(prefix + Extension(isLast), |shown| == 1, shown[0].name)
  {
    if Opens(x, prefix) && x.listing.Readable? {
      var l := x.listing;
      SortedSameEntries(l.children);
      var shown := Visible(SortByName(l.children));
      assert PrintTree(l, prefix + Extension(isLast)) == PrintItems(shown, prefix + Extension(isLast), l);
      if shown == [] {
        assert PrintItems(shown, prefix + Extension(isLast), l) == [];
      }
    }
  }

  /** The blocks of the loop over `items`, one per entry in order. */
  function Blocks(items: seq<Node>, prefix: string): (bs: seq<Block>)
    ensures |bs| == |items|
    ensures forall k :: 0 <= k < |items| ==>
      bs[k] == (Row(prefix, k == |items| - 1, items[k].name), Below(items[k], prefix, k == |items| - 1))
  {
    seq(|items|, k requires 0 <= k < |items| =>
      (Row(prefix, k == |items| - 1, items[k].name), Below(items[k], prefix, k == |items| - 1)))
  }

  /** The loop prints its blocks one after the other. */
  lemma {:induction false} ItemsAreBlocks(items: seq<Node>, prefix: string, parent: Listing)
    requires parent.Readable? && forall x :: x in items ==> x in parent.children
    ensures PrintItems(items, prefix, parent) == Flat(Blocks(items, prefix))
    decreases |items|
  {
    if items != [] {
      assert items[0] in parent.children;
      var bs := Blocks(items, prefix);
      assert bs[1..] == Blocks(items[1..], prefix) by {
        forall k | 0 <= k < |items| - 1 ensures bs[1..][k] == Blocks(items[1..], prefix)[k] {
          assert items[1..][k] == items[k + 1];
        }
      }
      ItemsAreBlocks(items[1..], prefix, parent);
    }
  }

  /** No row names a hidden entry. */
  predicate NoHidden(rows: seq<Row>) {
    forall k :: 0 <= k < |rows| ==> !Hidden(rows[k].name)
  }

  lemma NoHiddenConcat(a: seq<Row>, b: seq<Row>)
    requires NoHidden(a) && NoHidden(b)
    ensures NoHidden(a + b)
  {
    forall k | 0 <= k < |a + b| ensures !Hidden((a + b)[k].name) {
      if k >= |a| {
        assert (a + b)[k] == b[k - |a|];
      }
    }
  }

  /** The selective printer never shows a hidden entry, at any depth. */
  lemma {:induction false} TreeVisible(l: Listing, prefix: string)
    ensures NoHidden(PrintTree(l, prefix))
    decreases l, if l.Readable? then |l.children| + 1 else 0
  {
    if l.Readable? {
      SortedSameEntries(l.children);
      ItemsVisible(Visible(SortByName(l.children)), prefix, l);
    }
  }

  lemma {:induction false} ItemsVisible(items: seq<Node>, prefix: string, parent: Listing)
    requires parent.Readable? && forall x :: x in items ==> x in parent.children
    requires forall x :: x in items ==> !Hidden(x.name)
    ensures NoHidden(PrintItems(items, prefix, parent))
    decreases parent, |items|
  {
    if items != [] {
      var x := items[0];
      assert x in parent.children;
      var isLast := |items| == 1;
      var sub := if Opens(x, prefix) then PrintTree(x.listing, prefix + Extension(isLast)) else [];
      if Opens(x, prefix) {
        TreeVisible(x.listing, prefix + Extension(isLast));
      }
      ItemsVisible(items[1..], prefix, parent);
      var rest := PrintItems(items[1..], prefix, parent);
      var head := [Row(prefix, isLast, x.name)];
      assert head + sub + rest == PrintItems(items, prefix, parent);
      NoHiddenConcat(head, sub);
      NoHiddenConcat(head + sub, rest);
    }
  }

  /** Every row is indented by at least the prefix it was printed under. */
  lemma {:induction false} TreeIndented(l: Listing, prefix: string)
    ensures PrintDirectory.IndentedBy(PrintTree(l, prefix), prefix)
    decreases l, if l.Readable? then |l.children| + 1 else 0
  {
    if l.Readable? {
      SortedSameEntries(l.children);
      ItemsIndented(Visible(SortByName(l.children)), prefix, l);
    }
  }

  lemma {:induction false} ItemsIndented(items: seq<Node>, prefix: string, parent: Listing)
    requires parent.Readable? && forall x :: x in items ==> x in parent.children
    ensures PrintDirectory.IndentedBy(PrintItems(items, prefix, parent), prefix)
    decreases parent, |items|
  {
    if items != [] {
      var x := items[0];
      assert x in parent.children;
      var isLast := |items| == 1;
      var ext := prefix + Extension(isLast);
      var sub := if Opens(x, prefix) then PrintTree(x.listing, ext) else [];
      if Opens(x, prefix) {
        TreeIndented(x.listing, ext);
        PrintDirectory.IndentedWeaken(sub, prefix, ext);
      }
      ItemsIndented(items[1..], prefix, parent);
      var rest := PrintItems(items[1..], prefix, parent);
      var head := [Row(prefix, isLast, x.name)];
      assert head + sub + rest == PrintItems(items, prefix, parent);
      PrintDirectory.IndentedConcat(head, sub, prefix);
      PrintDirectory.IndentedConcat(head + sub, rest, prefix);
    }
  }

  /** Below the top level, a listing whose directories are all outside the
      include set prints only its own entries: every row sits at the prefix. */
  lemma {:induction false} ItemsFlat(items: seq<Node>, prefix: string, parent: Listing)
    requires parent.Readable? && forall x :: x in items ==> x in parent.children
    requires prefix != ""
    requires forall x :: x in items ==> x.Dir? ==> x.name !in IncludeFolders
    ensures |PrintItems(items, prefix, parent)| == |items|
    ensures forall k :: 0 <= k < |items| ==>
      PrintItems(items, prefix, parent)[k] == Row(prefix, k == |items| - 1, items[k].name)
    decreases |items|
  {
    if items != [] {
      ItemsFlat(items[1..], prefix, parent);
      var rest := PrintItems(items[1..], prefix, parent);
      assert !Opens(items[0], prefix);
      assert PrintItems(items, prefix, parent) == [Row(prefix, |items| == 1, items[0].name)] + rest;
    }
  }

  /** Such a directory is printed as its visible entries, in name order, the
      last with the elbow. */
  lemma TreeFlat(l: Listing, prefix: string)
    requires l.Readable? && prefix != ""
    requires forall x :: x in l.children ==> x.Dir? ==> x.name !in IncludeFolders
    ensures var shown := Visible(SortByName(l.children));
      && |PrintTree(l, prefix)| == |shown|
      && forall k :: 0 <= k < |shown| ==> PrintTree(l, prefix)[k] == Row(prefix, k == |shown| - 1, shown[k].name)
  {
    SortedSameEntries(l.children);
    ItemsFlat(Visible(SortByName(l.children)), prefix, l);
  }

  /** Every directory at every depth can be listed, holds no hidden entry, and
      every directory in it is one of the included folders. */
  predicate Tidy(l: Listing)
    decreases l
  {
    && l.Readable?
    && forall x :: x in l.children ==>
         && !Hidden(x.name)
         && (x.Dir? ==> x.name in IncludeFolders && Tidy(x.listing))
  }

  /** On a tidy tree the two printers print the same rows, and the full
      printer does not raise. */
  lemma {:induction false} TreeAgrees(l: Listing, prefix: string)
    requires Tidy(l)
    ensures PrintTree(l, prefix) == PrintDirectory.PrintTree(l, prefix).rows
    ensures !PrintDirectory.PrintTree(l, prefix).raised
    decreases l, |l.children| + 1
  {
    SortedSameEntries(l.children);
    var sorted := SortByName(l.children);
    assert Visible(sorted) == sorted;
    ItemsAgree(sorted, prefix, l);
  }

  lemma {:induction false} ItemsAgree(items: seq<Node>, prefix: string, parent: Listing)
    requires parent.Readable? && forall x :: x in items ==> x in parent.children
    requires forall x :: x in items ==> !Hidden(x.name) && (x.Dir? ==> x.name in IncludeFolders && Tidy(x.listing))
    ensures PrintItems(items, prefix, parent) == PrintDirectory.PrintItems(items, prefix, parent).rows
    ensures !PrintDirectory.PrintItems(items, prefix, parent).raised
    decreases parent, |items|
  {
    if items != [] {
      var x := items[0];
      assert x in parent.children;
      if x.Dir? {
        TreeAgrees(x.listing, prefix + Extension(|items| == 1));
      }
      ItemsAgree(items[1..], prefix, parent);
    }
  }
}
