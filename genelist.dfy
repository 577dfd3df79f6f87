/**
 * read_data's gene filter (hgmd/__main__.py): the gene file is read as a
 * list of gene names, with different rules for a file of one line and a
 * file of several lines, and the expression matrix keeps the listed genes
 * that it has, in the order of the list.
 */
module GeneList {
  import opened Text

  /** `line[:-1]` when the line holds a `\n`, the line itself otherwise. */
  function StripLine(line: string): string {
    if '\n' in line then line[..|line| - 1] else line
  }

  function StripLines(lines: seq<string>): (items: seq<string>)
    ensures |items| == |lines|
  {
    seq(|lines|, i requires 0 <= i < |lines| => StripLine(lines[i]))
  }

  function UpperAll(parts: seq<string>): (u: seq<string>)
    ensures |u| == |parts|
  {
    seq(|parts|, i requires 0 <= i < |parts| => Upper(parts[i]))
  }

  /** The items without a comma, in order. */
  function Bare(items: seq<string>): seq<string> {
    if items == [] then []
    else
      var last := items[|items| - 1];
      Bare(items[..|items| - 1]) + (if ',' in last then [] else [last])
  }

  /** The upper-cased comma-separated pieces of the items with a comma, in order. */
  function Expanded(items: seq<string>): seq<string> {
    if items == [] then []
    else
      var last := items[|items| - 1];
      Expanded(items[..|items| - 1]) + (if ',' in last then UpperAll(Split(last, ',')) else [])
  }

  /**
   * The gene list of a gene file's text (line ends already `\n`).  One line:
   * the first `splitlines()` line, upper-cased and split at commas.  Any
   * other number of lines: the stripped lines without a comma, verbatim, then
   * the upper-cased pieces of the lines with a comma.  Whatever the file,
   * no gene name of the list contains a comma.
   */
  function GeneListOf(text: string): (genes: seq<string>)
    ensures forall k :: 0 <= k < |genes| ==> ',' !in genes[k]
  {
    var lines := ReadLines(text);
    if |lines| == 1 then Split(Upper(FirstLine(text)), ',')
    else
      var items := StripLines(lines);
      BareNoCommas(items);
      ExpandedNoCommas(items);
      Bare(items) + Expanded(items)
  }

  /** `list.remove(x)`: drops the first entry equal to `x`. */
  function RemoveFirst(s: seq<string>, x: string): (r: seq<string>)
    requires x in s
    ensures |r| == |s| - 1
  {
    if s[0] == x then s[1..] else [s[0]] + RemoveFirst(s[1..], x)
  }

  /** `remove` of an item finds it behind a comma-free prefix when the item has a comma. */
  lemma {:induction false} RemoveBehindBare(a: seq<string>, x: string, b: seq<string>)
    requires ',' in x && forall k :: 0 <= k < |a| ==> ',' !in a[k]
    ensures RemoveFirst(a + [x] + b, x) == a + b
  {
    if a == [] {
      assert a + [x] + b == [x] + b;
    } else {
      assert a[0] != x;
      assert (a + [x] + b)[1..] == a[1..] + [x] + b;
      RemoveBehindBare(a[1..], x, b);
      assert a == [a[0]] + a[1..];
    }
  }

  lemma {:induction false} BareNoCommas(items: seq<string>)
    ensures forall k :: 0 <= k < |Bare(items)| ==> ',' !in Bare(items)[k]
  {
    if items != [] {
      BareNoCommas(items[..|items| - 1]);
    }
  }

  lemma UpperAllNoCommas(parts: seq<string>)
    requires forall k :: 0 <= k < |parts| ==> ',' !in parts[k]
    ensures forall k :: 0 <= k < |parts| ==> ',' !in UpperAll(parts)[k]
  {
    forall k | 0 <= k < |parts| ensures ',' !in UpperAll(parts)[k] {
      UpperKeeps(parts[k], ',');
    }
  }

  lemma {:induction false} ExpandedNoCommas(items: seq<string>)
    ensures forall k :: 0 <= k < |Expanded(items)| ==> ',' !in Expanded(items)[k]
  {
    if items != [] {
      var last := items[|items| - 1];
      ExpandedNoCommas(items[..|items| - 1]);
      if ',' in last {
        UpperAllNoCommas(Split(last, ','));
      }
    }
  }

  /**
   * A one-line file: re-joining the list with "," gives back the
   * upper-cased line, and splitting that join gives back the list.
   */
  lemma OneLineRoundTrip(text: string)
    requires |ReadLines(text)| == 1
    ensures Join(GeneListOf(text), ',') == Upper(FirstLine(text))
    ensures Split(Join(GeneListOf(text), ','), ',') == GeneListOf(text)
  {
    JoinSplit(Upper(FirstLine(text)), ',');
  }

  /** The file without any line gives the empty list. */
  lemma EmptyFile()
    ensures GeneListOf("") == []
  {
  }

  lemma {:induction false} BareMembers(items: seq<string>, g: string)
    ensures g in Bare(items) <==> g in items && ',' !in g
  {
    if items != [] {
      var init := items[..|items| - 1];
      BareMembers(init, g);
      assert items == init + [items[|items| - 1]];
    }
  }

  /** `g` is one of the upper-cased comma-separated pieces of an item with a comma. */
  predicate PieceOf(item: string, g: string) {
    ',' in item && g in UpperAll(Split(item, ','))
  }

  lemma {:induction false} ExpandedMembers(items: seq<string>, g: string)
    ensures g in Expanded(items) <==> exists k :: 0 <= k < |items| && PieceOf(items[k], g)
  {
    if items != [] {
      var init := items[..|items| - 1];
      var last := items[|items| - 1];
      ExpandedMembers(init, g);
      assert Expanded(items) == Expanded(init) + (if ',' in last then UpperAll(Split(last, ',')) else []);
      if g in Expanded(items) && g !in Expanded(init) {
        assert PieceOf(items[|items| - 1], g);
      }
      if exists k :: 0 <= k < |items| && PieceOf(items[k], g) {
        var k :| 0 <= k < |items| && PieceOf(items[k], g);
        if k < |init| {
          assert init[k] == items[k];
        }
      }
    }
  }

  /**
   * A file of several lines: a name is on the list exactly when it is a
   * stripped line without a comma, or an upper-cased piece of a stripped
   * line with a comma.
   */
  lemma MultiLineMembers(text: string, g: string)
    requires |ReadLines(text)| != 1
    ensures var items := StripLines(ReadLines(text));
            g in GeneListOf(text) <==>
              (g in items && ',' !in g) || exists k :: 0 <= k < |items| && PieceOf(items[k], g)
  {
    var items := StripLines(ReadLines(text));
    BareMembers(items, g);
    ExpandedMembers(items, g);
  }

  /** The strip loop of read_data: `line[:-1]` for every line holding a `\n`. */
  method StripAll(lines: seq<string>) returns (items: seq<string>)
    ensures items == StripLines(lines)
  {
    items := [];
    var i := 0;
    while i < |lines|
      invariant i <= |lines| && |items| == i
      invariant forall k :: 0 <= k < i ==> items[k] == StripLine(lines[k])
    {
      if '\n' in lines[i] {
        items := items + [lines[i][..|lines[i]| - 1]];
      } else {
        items := items + [lines[i]];
      }
      i := i + 1;
    }
  }

  /** `for ele in pieces: genes.append(ele.upper())`. */
  method AppendUpper(genes: seq<string>, pieces: seq<string>) returns (r: seq<string>)
    ensures r == genes + UpperAll(pieces)
  {
    r := genes;
    var k := 0;
    while k < |pieces|
      invariant k <= |pieces|
      invariant r == genes + UpperAll(pieces[..k])
    {
      assert UpperAll(pieces[..k + 1]) == UpperAll(pieces[..k]) + [Upper(pieces[k])];
      r := r + [Upper(pieces[k])];
      k := k + 1;
    }
    assert pieces[..k] == pieces;
  }

  /** The list before item j is visited: bare items so far, the unvisited items, the pieces so far. */
  function Pending(items: seq<string>, j: nat): seq<string>
    requires j <= |items|
  {
    Bare(items[..j]) + items[j..] + Expanded(items[..j])
  }

  /** Visiting an item without a comma changes nothing; one with a comma is removed and its pieces appended. */
  lemma ItemStep(items: seq<string>, j: nat)
    requires j < |items|
    ensures ',' !in items[j] ==> Pending(items, j + 1) == Pending(items, j)
    ensures ',' in items[j] ==>
              items[j] in Pending(items, j) &&
              Pending(items, j + 1) == RemoveFirst(Pending(items, j), items[j]) + UpperAll(Split(items[j], ','))
  {
    var item := items[j];
    assert items[..j + 1][..j] == items[..j];
    assert items[..j + 1][j] == item;
    assert items[j..] == [item] + items[j + 1..];
    if ',' in item {
      BareNoCommas(items[..j]);
      RemoveBehindBare(Bare(items[..j]), item, items[j + 1..] + Expanded(items[..j]));
      assert Pending(items, j) == Bare(items[..j]) + [item] + (items[j + 1..] + Expanded(items[..j]));
    }
  }

  /**
   * The gene-list loops of read_data: strip each line, then replace every
   * item with a comma (`list.remove`) by its upper-cased pieces appended at
   * the end.
   */
  method ParseGeneList(text: string) returns (genes: seq<string>)
    ensures genes == GeneListOf(text)
  {
    var lines := ReadLines(text);
    if |lines| == 1 {
      genes := Split(Upper(FirstLine(text)), ',');
      return;
    }
    var items := StripAll(lines);
    genes := ExpandItems(items);
  }

  /** The loop over the stripped items: each comma item is removed and its upper-cased pieces appended. */
  method ExpandItems(items: seq<string>) returns (genes: seq<string>)
    ensures genes == Bare(items) + Expanded(items)
  {
    genes := items;
    var j := 0;
    PendingStart(items);
    while j < |items|
      invariant j <= |items|
      invariant genes == Pending(items, j)
    {
      var item := items[j];
      ItemStep(items, j);
      if ',' in item {
        genes := RemoveFirst(genes, item);
        genes := AppendUpper(genes, Split(item, ','));
      }
      j := j + 1;
    }
    PendingEnd(items);
  }

  lemma PendingStart(items: seq<string>)
    ensures Pending(items, 0) == items
  {
    var none: seq<string> := [];
    assert items[..0] == none && items[0..] == items;
    assert Bare(none) == [] && Expanded(none) == [];
  }

  lemma PendingEnd(items: seq<string>)
    ensures Pending(items, |items|) == Bare(items) + Expanded(items)
  {
    assert items[..|items|] == items && items[|items|..] == [];
  }

  /**
   * The genes `new_no_comp_mark_exp[gene] = no_complement_marker_exp[gene]`
   * leaves in the new matrix, in column order: each listed gene that names
   * exactly one column, placed where it is first assigned (assigning it
   * again replaces the column in place).  A missing gene raises KeyError; a
   * gene that names several columns yields a frame of several columns,
   * whose assignment to one column raises ValueError; either way the bare
   * `except` skips it.
   */
  function Selection(wanted: seq<string>, columns: seq<string>): (sel: seq<string>)
    ensures forall g :: g in sel ==> g in wanted && multiset(columns)[g] == 1
    ensures forall i, j :: 0 <= i < j < |sel| ==> sel[i] != sel[j]
  {
    if wanted == [] then []
    else
      var acc := Selection(wanted[..|wanted| - 1], columns);
      var g := wanted[|wanted| - 1];
      if multiset(columns)[g] == 1 && g !in acc then acc + [g] else acc
  }

  /** Position of the first occurrence of `x` in `s`. */
  function FirstIndex(s: seq<string>, x: string): (i: nat)
    requires x in s
    ensures i < |s| && s[i] == x && x !in s[..i]
  {
    if s[0] == x then 0
    else
      var i := FirstIndex(s[1..], x) + 1;
      assert s[..i] == [s[0]] + s[1..][..i - 1];
      i
  }

  /**
   * The selection holds, once each, the listed genes that name exactly one
   * column, and nothing else, in the order in which the genes first appear in the list.
   */
  lemma {:induction false} SelectionSpec(wanted: seq<string>, columns: seq<string>)
    ensures var sel := Selection(wanted, columns);
            && (forall g :: g in sel <==> g in wanted && multiset(columns)[g] == 1)
            && (forall i, j :: 0 <= i < j < |sel| ==> sel[i] != sel[j])
            && (forall i, j :: 0 <= i < j < |sel| ==> FirstIndex(wanted, sel[i]) < FirstIndex(wanted, sel[j]))
  {
    if wanted != [] {
      var init := wanted[..|wanted| - 1];
      var g := wanted[|wanted| - 1];
      var acc := Selection(init, columns);
      SelectionSpec(init, columns);
      assert wanted == init + [g];
      forall x | x in init ensures FirstIndex(wanted, x) == FirstIndex(init, x) {
        FirstIndexPrefix(init, g, x);
      }
      if multiset(columns)[g] == 1 && g !in acc {
        assert g !in init;
        SelectionAdd(init, g, acc);
      }
    }
  }

  /** A name not listed before is placed after every name selected so far. */
  lemma SelectionAdd(init: seq<string>, g: string, acc: seq<string>)
    requires g !in init && forall x :: x in acc ==> x in init
    requires forall i, j :: 0 <= i < j < |acc| ==> FirstIndex(init, acc[i]) < FirstIndex(init, acc[j])
    ensures var sel, wanted := acc + [g], init + [g];
            forall i, j :: 0 <= i < j < |sel| ==> FirstIndex(wanted, sel[i]) < FirstIndex(wanted, sel[j])
  {
    var sel, wanted := acc + [g], init + [g];
    assert FirstIndex(wanted, g) == |init| by {
      assert wanted[..|init|] == init;
    }
    forall i, j | 0 <= i < j < |sel| ensures FirstIndex(wanted, sel[i]) < FirstIndex(wanted, sel[j]) {
      assert sel[i] == acc[i] && acc[i] in acc;
      FirstIndexPrefix(init, g, sel[i]);
      if j == |acc| {
        assert FirstIndex(init, sel[i]) < |init|;
      } else {
        assert sel[j] == acc[j] && acc[j] in acc;
        FirstIndexPrefix(init, g, sel[j]);
      }
    }
  }

  lemma FirstIndexPrefix(init: seq<string>, g: string, x: string)
    requires x in init
    ensures FirstIndex(init + [g], x) == FirstIndex(init, x)
  {
    var w := init + [g];
    var i := FirstIndex(init, x);
    assert w[i] == x && w[..i] == init[..i];
  }

  /** The gene loop of read_data's gene filter. */
  method SelectGenes(wanted: seq<string>, columns: seq<string>) returns (selected: seq<string>)
    ensures selected == Selection(wanted, columns)
  {
    selected := [];
    var i := 0;
    while i < |wanted|
      invariant i <= |wanted|
      invariant selected == Selection(wanted[..i], columns)
    {
      var gene := wanted[i];
      assert wanted[..i + 1][..i] == wanted[..i];
      if multiset(columns)[gene] == 1 && gene !in selected {
        selected := selected + [gene];
      }
      i := i + 1;
    }
    assert wanted[..i] == wanted;
  }

  /**
   * read_data's gene filter: upper-case the expression matrix's gene
   * names, read the gene list from the file's text and keep the listed
   * genes the matrix has.
   */
  method GeneFilter(text: string, columns: seq<string>) returns (selected: seq<string>)
    ensures selected == Selection(GeneListOf(text), UpperAll(columns))
  {
    var upper := UpperAll(columns);
    var wanted := ParseGeneList(text);
    selected := SelectGenes(wanted, upper);
  }

  /**
   * The gene list with every item upper-cased, the lines without a comma
   * included, as the upper-cased gene names it is matched against require.
   */
  function GeneListIntended(text: string): seq<string> {
    var lines := ReadLines(text);
    if |lines| == 1 then Split(Upper(FirstLine(text)), ',')
    else
      var items := StripLines(lines);
      UpperAll(Bare(items)) + Expanded(items)
  }

  /** Splitting on commas commutes with upper-casing, which keeps every comma where it is. */
  lemma {:induction false} SplitUpper(s: string)
    ensures Split(Upper(s), ',') == UpperAll(Split(s, ','))
    decreases |s|
  {
    if ',' in s {
      var i := IndexOf(s, ',');
      var u := Upper(s);
      UpperComma(s);
      SplitUpper(s[i + 1..]);
      var rest := Split(s[i + 1..], ',');
      SplitAtComma(s);
      SplitAtComma(u);
      calc {
        Split(u, ',');
        [u[..i]] + Split(u[i + 1..], ',');
        [Upper(s[..i])] + UpperAll(rest);
        { UpperAllCons(s[..i], rest); }
        UpperAll([s[..i]] + rest);
        UpperAll(Split(s, ','));
      }
    } else {
      NoCommaUpper(s);
    }
  }

  lemma SplitAtComma(s: string)
    requires ',' in s
    ensures Split(s, ',') == [s[..IndexOf(s, ',')]] + Split(s[IndexOf(s, ',') + 1..], ',')
  {
  }

  lemma UpperAllCons(x: string, rest: seq<string>)
    ensures UpperAll([x] + rest) == [Upper(x)] + UpperAll(rest)
  {
    assert forall k :: 0 <= k < |rest| ==> ([x] + rest)[k + 1] == rest[k];
  }

  lemma NoCommaUpper(s: string)
    requires ',' !in s
    ensures ',' !in Upper(s)
  {
    UpperKeeps(s, ',');
  }

  /** The first comma of the upper-cased string is where it was, with the two sides upper-cased. */
  lemma UpperComma(s: string)
    requires ',' in s
    ensures var i := IndexOf(s, ',');
            && ',' in Upper(s) && IndexOf(Upper(s), ',') == i
            && Upper(s)[..i] == Upper(s[..i]) && Upper(s)[i + 1..] == Upper(s[i + 1..])
  {
    var i := IndexOf(s, ',');
    var u := Upper(s);
    UpperKeeps(s, ',');
    assert u[i] == ',';
    forall k | 0 <= k < i ensures u[..i][k] != ',' {
      assert s[..i][k] == s[k];
    }
    assert IndexOf(u, ',') == i;
  }

  /** Upper-casing the items keeps the comma-free ones in place, upper-cased. */
  lemma {:induction false} BareUpper(items: seq<string>)
    ensures Bare(UpperAll(items)) == UpperAll(Bare(items))
  {
    if items != [] {
      var init, last := items[..|items| - 1], items[|items| - 1];
      assert UpperAll(items)[..|items| - 1] == UpperAll(init);
      UpperKeeps(last, ',');
      BareUpper(init);
      var tail: seq<string> := if ',' in last then [] else [last];
      assert UpperAll(Bare(init) + tail) == UpperAll(Bare(init)) + UpperAll(tail);
    }
  }

  /** Upper-casing the items changes none of the appended pieces, which are upper-cased anyway. */
  lemma {:induction false} ExpandedUpper(items: seq<string>)
    ensures Expanded(UpperAll(items)) == Expanded(items)
  {
    if items != [] {
      var init, last := items[..|items| - 1], items[|items| - 1];
      assert UpperAll(items)[..|items| - 1] == UpperAll(init);
      UpperKeeps(last, ',');
      ExpandedUpper(init);
      SplitUpper(last);
      var pieces := Split(last, ',');
      forall k | 0 <= k < |pieces| ensures UpperAll(UpperAll(pieces))[k] == UpperAll(pieces)[k] {
        UpperIdempotent(pieces[k]);
      }
    }
  }

  /**
   * The parser with the evident fix: each line is upper-cased as it is
   * read, as the one-line branch does.
   */
  method ParseGeneListIntended(text: string) returns (genes: seq<string>)
    ensures genes == GeneListIntended(text)
  {
    var lines := ReadLines(text);
    if |lines| == 1 {
      genes := Split(Upper(FirstLine(text)), ',');
      return;
    }
    var items := StripAll(lines);
    var upper := AppendUpper([], items);
    assert upper == UpperAll(items);
    genes := ExpandItems(upper);
    BareUpper(items);
    ExpandedUpper(items);
  }

  /** read_data's gene filter over the corrected parser. */
  method GeneFilterIntended(text: string, columns: seq<string>) returns (selected: seq<string>)
    ensures selected == Selection(GeneListIntended(text), UpperAll(columns))
  {
    var upper := UpperAll(columns);
    var wanted := ParseGeneListIntended(text);
    selected := SelectGenes(wanted, upper);
  }

  /** The items of the two-line file "cd4\ncd8". */
  lemma TwoLineItems()
    ensures |ReadLines("cd4\ncd8")| == 2
    ensures StripLines(ReadLines("cd4\ncd8")) == ["cd4", "cd8"]
  {
    var text := "cd4\ncd8";
    assert IndexOf(text, '\n') == 3;
    assert text[..4] == "cd4\n" && text[4..] == "cd8";
    assert '\n' !in "cd8";
    assert ReadLines("cd8") == ["cd8"];
    assert ReadLines(text) == ["cd4\n", "cd8"];
    assert StripLine("cd4\n") == "cd4" && StripLine("cd8") == "cd8";
  }

  lemma UpperNames(names: seq<string>)
    requires names == ["cd4", "cd8"]
    ensures UpperAll(names) == ["CD4", "CD8"]
  {
    assert Upper("cd4") == "CD4" && Upper("cd8") == "CD8";
  }

  /** Both readings of the two-line file "cd4\ncd8". */
  lemma TwoLineLists(text: string)
    requires text == "cd4\ncd8"
    ensures GeneListOf(text) == ["cd4", "cd8"]
    ensures GeneListIntended(text) == ["CD4", "CD8"]
  {
    TwoLineItems();
    var items := ["cd4", "cd8"];
    assert ',' !in "cd4" && ',' !in "cd8";
    assert items[..1] == ["cd4"] && items[..1][..0] == [];
    assert Bare(items[..1]) == ["cd4"] && Expanded(items[..1]) == [];
    assert Bare(items) == items && Expanded(items) == [];
    UpperNames(items);
  }

  /** Selection from the upper-cased gene names CD4 and CD8. */
  lemma TwoGeneSelections(columns: seq<string>)
    requires columns == ["CD4", "CD8"]
    ensures Selection(["cd4", "cd8"], columns) == []
    ensures Selection(["CD4", "CD8"], columns) == ["CD4", "CD8"]
  {
    assert "cd4" != "CD4" && "cd4" != "CD8" by { assert "cd4"[0] != "CD4"[0]; }
    assert "cd8" != "CD4" && "cd8" != "CD8" by { assert "cd8"[0] != "CD4"[0]; }
    assert "CD4" != "CD8" by { assert "CD4"[2] != "CD8"[2]; }
    PairCount(columns, "cd4");
    PairCount(columns, "cd8");
    PairCount(columns, "CD4");
    PairCount(columns, "CD8");
    SelectionPair(["cd4", "cd8"], columns);
    SelectionPair(["CD4", "CD8"], columns);
  }

  /** Selecting from a list of two names, one name at a time. */
  lemma SelectionPair(wanted: seq<string>, columns: seq<string>)
    requires |wanted| == 2
    ensures var first := if multiset(columns)[wanted[0]] == 1 then [wanted[0]] else [];
            Selection(wanted, columns) ==
              if multiset(columns)[wanted[1]] == 1 && wanted[1] !in first then first + [wanted[1]] else first
  {
    assert wanted[..1] == [wanted[0]] && wanted[..1][..0] == [];
    assert Selection(wanted[..1], columns) == if multiset(columns)[wanted[0]] == 1 then [wanted[0]] else [];
  }

  lemma PairCount(pair: seq<string>, x: string)
    requires |pair| == 2
    ensures multiset(pair)[x] == (if pair[0] == x then 1 else 0) + (if pair[1] == x then 1 else 0)
  {
    assert pair == [pair[0]] + [pair[1]];
  }

  /**
   * A file with one lower-case gene per line selects nothing from a
   * matrix that has those genes, because the lines are not upper-cased
   * while the gene names are; upper-casing every item selects both.
   */
  lemma LowerCaseLinesMissed()
    ensures Selection(GeneListOf("cd4\ncd8"), UpperAll(["cd4", "cd8"])) == []
    ensures Selection(GeneListIntended("cd4\ncd8"), UpperAll(["cd4", "cd8"])) == ["CD4", "CD8"]
  {
    TwoLineLists("cd4\ncd8");
    UpperNames(["cd4", "cd8"]);
    TwoGeneSelections(["CD4", "CD8"]);
  }

  lemma UpperAllMembers(s: seq<string>, g: string)
    ensures g in UpperAll(s) <==> exists x :: x in s && Upper(x) == g
  {
    if exists x :: x in s && Upper(x) == g {
      var x :| x in s && Upper(x) == g;
      var k :| 0 <= k < |s| && s[k] == x;
      assert UpperAll(s)[k] == g;
    }
  }

  /**
   * With every item upper-cased, a gene written on its own line in any
   * letter case is selected exactly when the matrix has one gene, and only
   * one, of that name in some letter case; the selected gene is then one of
   * the matrix's genes up to letter case.
   */
  lemma IntendedMatchesAnyCase(text: string, k: nat, columns: seq<string>)
    requires |ReadLines(text)| != 1
    requires k < |ReadLines(text)| && ',' !in StripLines(ReadLines(text))[k]
    ensures var line := StripLines(ReadLines(text))[k];
            && (Upper(line) in Selection(GeneListIntended(text), UpperAll(columns)) <==>
                  multiset(UpperAll(columns))[Upper(line)] == 1)
            && (Upper(line) in Selection(GeneListIntended(text), UpperAll(columns)) ==>
                  exists c :: c in columns && Upper(c) == Upper(line))
  {
    var items := StripLines(ReadLines(text));
    var line := items[k];
    BareMembers(items, line);
    UpperAllMembers(Bare(items), Upper(line));
    UpperAllMembers(columns, Upper(line));
    SelectionSpec(GeneListIntended(text), UpperAll(columns));
  }
}
