/** The extractor of the colour scraper: `parse_html` in colors.py, with the HTML layer
  * taken away. Its input is the document's table rows, each given as the texts of its
  * cells; its output is the frequency table, a `defaultdict(int)` filled by `+= 1`.
  */
module ColorTally {
  import opened Outcomes
  import opened Text

  /** The texts of the cells of one table row, in order. */
  type Row = seq<string>

  /** `row.select('td')[1]` raised IndexError: the row at this position has fewer than two cells. */
  datatype ParseError = MalformedRow(row: nat)

  /** The frequency table: the colours in the order the dictionary first received them,
    * and the count of each.
    */
  datatype Table = Table(keys: seq<string>, counts: map<string, nat>) {
    /** What every Python dictionary satisfies: its keys are distinct, and they are exactly
      * the keys that have a count.
      */
    predicate WellFormed() {
      (forall i, j :: 0 <= i < j < |keys| ==> keys[i] != keys[j]) &&
      (forall k :: k in keys ==> k in counts) &&
      (forall k :: k in counts ==> k in keys)
    }

    /** Every count is at least one. */
    predicate Positive() {
      forall k :: k in counts ==> counts[k] >= 1
    }
  }

  /** `defaultdict(int)` before any row is read. */
  const Empty := Table([], map[])

  /** Sum of the counts of `keys`. */
  function SumCounts(keys: seq<string>, counts: map<string, nat>): nat
    requires forall k :: k in keys ==> k in counts
  {
    if keys == [] then 0
    else SumCounts(keys[..|keys| - 1], counts) + counts[keys[|keys| - 1]]
  }

  /** `sum(color_set.values())`. */
  function Total(t: Table): nat
    requires t.WellFormed()
  {
    SumCounts(t.keys, t.counts)
  }

  /** Number of times `k` occurs in `s`. */
  function Occurrences(s: seq<string>, k: string): (n: nat)
    ensures n <= |s|
    ensures n > 0 <==> k in s
  {
    if s == [] then 0
    else
      var init := s[..|s| - 1];
      assert s == init + [s[|s| - 1]];
      Occurrences(init, k) + if s[|s| - 1] == k then 1 else 0
  }

  /** Position of the first occurrence of `k` in `s`. */
  function FirstIndex(s: seq<string>, k: string): (i: nat)
    requires k in s
    ensures i < |s| && s[i] == k && k !in s[..i]
  {
    var init := s[..|s| - 1];
    assert s == init + [s[|s| - 1]];
    if k in init then FirstIndex(init, k) else |s| - 1
  }

  /** `color_set[color] += 1`: the count of `color` goes up by one, from 0 when the colour
    * is new, in which case it joins the keys at the end; no other count changes.
    */
  function Bump(t: Table, color: string): (r: Table)
    ensures color in r.counts
    ensures r.counts[color] == (if color in t.counts then t.counts[color] else 0) + 1
    ensures forall k :: k in t.counts && k != color ==> k in r.counts && r.counts[k] == t.counts[k]
    ensures r.counts.Keys == t.counts.Keys + {color}
    ensures r.keys == if color in t.counts then t.keys else t.keys + [color]
  {
    if color in t.counts then Table(t.keys, t.counts[color := t.counts[color] + 1])
    else Table(t.keys + [color], t.counts[color := 1])
  }

  /** Counting each of `colors`, in order, into `t`. */
  function BumpAll(t: Table, colors: seq<string>): Table {
    if colors == [] then t
    else Bump(BumpAll(t, colors[..|colors| - 1]), colors[|colors| - 1])
  }

  /** The colours of one row's second cell: the text stripped, its newlines deleted, split
    * on ", ", and each piece stripped. There is always at least one, one per piece.
    */
  function CellColors(cell: string): (r: seq<string>)
    ensures |r| == |Split(DeleteNewlines(Strip(cell)))| >= 1
  {
    StripEach(Split(DeleteNewlines(Strip(cell))))
  }

  /** `[p.strip() for p in parts]`. */
  function StripEach(parts: seq<string>): (r: seq<string>)
    ensures |r| == |parts|
    ensures forall i :: 0 <= i < |parts| ==> r[i] == Strip(parts[i])
  {
    if parts == [] then [] else StripEach(parts[..|parts| - 1]) + [Strip(parts[|parts| - 1])]
  }

  /** No colour of a cell has whitespace at either end or contains a newline. */
  lemma CellColorsClean(cell: string)
    ensures forall k :: k in CellColors(cell) ==> Trimmed(k) && '\n' !in k
  {
    var cleaned := DeleteNewlines(Strip(cell));
    var parts := Split(cleaned);
    var r := CellColors(cell);
    SplitChars(cleaned);
    forall i | 0 <= i < |parts| ensures '\n' !in r[i] {
      StripChars(parts[i]);
      assert parts[i] in parts;
    }
  }

  /** Every row of `rows` has a second cell. */
  predicate AllRowsHaveColors(rows: seq<Row>) {
    forall i :: 0 <= i < |rows| ==> |rows[i]| >= 2
  }

  /** Every colour token of the document, in reading order. */
  function Colors(rows: seq<Row>): seq<string>
    requires AllRowsHaveColors(rows)
  {
    if rows == [] then []
    else Colors(rows[..|rows| - 1]) + CellColors(rows[|rows| - 1][1])
  }

  /** The frequency table `parse_html` returns for `rows`, or the IndexError it raises at the
    * first row without a second cell.
    */
  function Tally(rows: seq<Row>): (r: Result<Table, ParseError>)
    ensures r.Ok? <==> AllRowsHaveColors(rows)
    ensures r.Err? ==> (r.error.row < |rows| && |rows[r.error.row]| < 2
                        && AllRowsHaveColors(rows[..r.error.row]))
  {
    if rows == [] then Ok(Empty)
    else
      var init := rows[..|rows| - 1];
      var row := rows[|rows| - 1];
      match Tally(init)
      case Err(e) =>
        EarlierFailure(rows, e.row);
        Err(e)
      case Ok(t) =>
        if |row| < 2 then
          Err(MalformedRow(|rows| - 1))
        else
          OneMoreRowWithColors(rows);
          Ok(BumpAll(t, CellColors(row[1])))
  }

  lemma EarlierFailure(rows: seq<Row>, e: nat)
    requires |rows| > 0
    requires e < |rows| - 1 && |rows[..|rows| - 1][e]| < 2
    requires AllRowsHaveColors(rows[..|rows| - 1][..e])
    ensures |rows[e]| < 2 && AllRowsHaveColors(rows[..e]) && !AllRowsHaveColors(rows)
  {
    assert rows[..|rows| - 1][..e] == rows[..e];
    assert rows[..|rows| - 1][e] == rows[e];
  }

  lemma OneMoreRowWithColors(rows: seq<Row>)
    requires |rows| > 0 && AllRowsHaveColors(rows[..|rows| - 1]) && |rows[|rows| - 1]| >= 2
    ensures AllRowsHaveColors(rows)
  {
    forall i | 0 <= i < |rows| ensures |rows[i]| >= 2 {
      if i < |rows| - 1 { assert rows[i] == rows[..|rows| - 1][i]; }
    }
  }

  /** Reading one more row that has a second cell counts that cell's colours. */
  lemma TallyNextRow(rows: seq<Row>, i: nat)
    requires i < |rows| && |rows[i]| >= 2 && Tally(rows[..i]).Ok?
    ensures Tally(rows[..i + 1]) == Ok(BumpAll(Tally(rows[..i]).value, CellColors(rows[i][1])))
  {
    assert rows[..i + 1][..i] == rows[..i];
  }

  /** The first row without a second cell is the one `parse_html` fails on. */
  lemma TallyFailsAt(rows: seq<Row>, i: nat)
    requires i < |rows| && |rows[i]| < 2 && Tally(rows[..i]).Ok?
    ensures Tally(rows) == Err(MalformedRow(i))
  {
    var e := Tally(rows).error.row;
    if e < i {
      HasColorsBefore(rows, i, e);
      assert false;
    } else if e > i {
      HasColorsBefore(rows, e, i);
      assert false;
    }
  }

  lemma HasColorsBefore(rows: seq<Row>, i: nat, e: nat)
    requires e < i <= |rows| && AllRowsHaveColors(rows[..i])
    ensures |rows[e]| >= 2
  {
    assert rows[..i][e] == rows[e];
  }

  /** `parse_html`, as the nested loops that fill the dictionary in place. */
  method ParseHtml(rows: seq<Row>) returns (r: Result<Table, ParseError>)
    ensures r == Tally(rows)
  {
    var keys: seq<string> := [];
    var counts: map<string, nat> := map[];
    for i := 0 to |rows|
      invariant Tally(rows[..i]) == Ok(Table(keys, counts))
    {
      if |rows[i]| < 2 {
        TallyFailsAt(rows, i);
        return Err(MalformedRow(i));
      }
      var parts := Split(DeleteNewlines(Strip(rows[i][1])));
      ghost var before := Table(keys, counts);
      ghost var colors := CellColors(rows[i][1]);
      for j := 0 to |parts|
        invariant Table(keys, counts) == BumpAll(before, colors[..j])
      {
        assert colors[..j + 1][..j] == colors[..j];
        var color := Strip(parts[j]);
        assert color == colors[j];
        if color in counts {
          counts := counts[color := counts[color] + 1];
        } else {
          keys := keys + [color];
          counts := counts[color := 1];
        }
      }
      assert colors[..|parts|] == colors;
      TallyNextRow(rows, i);
    }
    assert rows[..|rows|] == rows;
    r := Ok(Table(keys, counts));
  }

  /** Counting `a` and then `b` is counting `a + b`. */
  lemma {:induction false} BumpAllAppend(t: Table, a: seq<string>, b: seq<string>)
    ensures BumpAll(t, a + b) == BumpAll(BumpAll(t, a), b)
  {
    if b != [] {
      var b' := b[..|b| - 1];
      assert (a + b)[..|a + b| - 1] == a + b';
      BumpAllAppend(t, a, b');
    } else {
      assert a + b == a;
    }
  }

  /** Without a row lacking its second cell, `parse_html` counts every colour token of the
    * document, row after row, into an empty dictionary.
    */
  lemma {:induction false} TallyCountsColors(rows: seq<Row>)
    requires AllRowsHaveColors(rows)
    ensures Tally(rows) == Ok(BumpAll(Empty, Colors(rows)))
  {
    if rows != [] {
      var init := rows[..|rows| - 1];
      assert AllRowsHaveColors(init) by {
        forall i | 0 <= i < |init| ensures |init[i]| >= 2 { assert init[i] == rows[i]; }
      }
      TallyCountsColors(init);
      BumpAllAppend(Empty, Colors(init), CellColors(rows[|rows| - 1][1]));
    }
  }

  /** Each row contributes at least one colour token. */
  lemma {:induction false} ColorsPerRow(rows: seq<Row>)
    requires AllRowsHaveColors(rows)
    ensures |Colors(rows)| >= |rows|
  {
    if rows != [] {
      var init := rows[..|rows| - 1];
      assert AllRowsHaveColors(init) by {
        forall i | 0 <= i < |init| ensures |init[i]| >= 2 { assert init[i] == rows[i]; }
      }
      ColorsPerRow(init);
    }
  }

  /** No colour token has whitespace at either end or contains a newline. */
  lemma {:induction false} ColorsClean(rows: seq<Row>)
    requires AllRowsHaveColors(rows)
    ensures forall k :: k in Colors(rows) ==> Trimmed(k) && '\n' !in k
  {
    if rows != [] {
      var init := rows[..|rows| - 1];
      assert AllRowsHaveColors(init) by {
        forall i | 0 <= i < |init| ensures |init[i]| >= 2 { assert init[i] == rows[i]; }
      }
      ColorsClean(init);
      CellColorsClean(rows[|rows| - 1][1]);
    }
  }

  /** A second cell holding only whitespace (or nothing) yields the one colour "". */
  lemma BlankCell(cell: string)
    requires AllSpace(cell)
    ensures CellColors(cell) == [""]
  {
    StripEmpty(cell);
    assert Split(DeleteNewlines(Strip(cell))) == [""];
    StripEmpty("");
  }

  /** Summing after changing the count of a key that is not summed changes nothing. */
  lemma {:induction false} SumCountsUnrelated(keys: seq<string>, counts: map<string, nat>, k: string, v: nat)
    requires forall x :: x in keys ==> x in counts
    requires k !in keys
    ensures SumCounts(keys, counts[k := v]) == SumCounts(keys, counts)
  {
    if keys != [] {
      SumCountsUnrelated(keys[..|keys| - 1], counts, k, v);
    }
  }

  /** Changing the count of a key summed exactly once changes the sum by the difference. */
  lemma {:induction false} SumCountsUpdate(keys: seq<string>, counts: map<string, nat>, k: string, v: nat)
    requires forall x :: x in keys ==> x in counts
    requires forall i, j :: 0 <= i < j < |keys| ==> keys[i] != keys[j]
    requires k in keys
    ensures SumCounts(keys, counts[k := v]) + counts[k] == SumCounts(keys, counts) + v
  {
    var init := keys[..|keys| - 1];
    if keys[|keys| - 1] == k {
      assert k !in init;
      SumCountsUnrelated(init, counts, k, v);
    } else {
      assert k in init;
      SumCountsUpdate(init, counts, k, v);
    }
  }

  /** `t` is the dictionary obtained by counting `toks`: its keys are exactly the tokens,
    * each with its number of occurrences, and the counts add up to the number of tokens.
    */
  ghost predicate Counts(t: Table, toks: seq<string>) {
    t.WellFormed() && t.Positive()
    && (forall k :: k in t.counts <==> k in toks)
    && (forall k :: k in t.counts ==> t.counts[k] == Occurrences(toks, k))
    && Total(t) == |toks|
  }

  lemma OccurrencesAppend(toks: seq<string>, x: string, k: string)
    ensures Occurrences(toks + [x], k) == Occurrences(toks, k) + if x == k then 1 else 0
  {
    assert (toks + [x])[..|toks|] == toks;
  }

  /** Counting one more token keeps a table in step with the tokens counted. */
  lemma BumpCounts(t: Table, toks: seq<string>, x: string)
    requires Counts(t, toks)
    ensures Counts(Bump(t, x), toks + [x])
  {
    if x in t.counts {
      BumpPresentTable(t, x);
    } else {
      BumpAbsentTable(t, x);
    }
    BumpDomain(t.counts, toks, x);
    BumpOccurrences(t, toks, x);
  }

  lemma BumpDomain(counts: map<string, nat>, toks: seq<string>, x: string)
    requires forall k :: k in counts <==> k in toks
    ensures forall k :: k in Bump(Table([], counts), x).counts <==> k in toks + [x]
  {
    forall k ensures k in Bump(Table([], counts), x).counts <==> k in toks + [x] {
      assert k in toks + [x] <==> k in toks || k == x;
    }
  }

  lemma BumpOccurrences(t: Table, toks: seq<string>, x: string)
    requires forall k :: k in t.counts ==> t.counts[k] == Occurrences(toks, k)
    requires x !in t.counts ==> Occurrences(toks, x) == 0
    ensures forall k :: k in Bump(t, x).counts ==> Bump(t, x).counts[k] == Occurrences(toks + [x], k)
  {
    forall k | k in Bump(t, x).counts ensures Bump(t, x).counts[k] == Occurrences(toks + [x], k) {
      OccurrencesAppend(toks, x, k);
    }
  }

  /** Counting a colour already present keeps the dictionary well formed and adds one to
    * the total.
    */
  lemma BumpPresentTable(t: Table, x: string)
    requires t.WellFormed() && t.Positive() && x in t.counts
    ensures Bump(t, x).WellFormed() && Bump(t, x).Positive()
    ensures Total(Bump(t, x)) == Total(t) + 1
  {
    SumCountsUpdate(t.keys, t.counts, x, t.counts[x] + 1);
  }

  /** Counting a new colour appends it with count 1, keeps the dictionary well formed and
    * adds one to the total.
    */
  lemma BumpAbsentTable(t: Table, x: string)
    requires t.WellFormed() && t.Positive() && x !in t.counts
    ensures Bump(t, x).WellFormed() && Bump(t, x).Positive()
    ensures Total(Bump(t, x)) == Total(t) + 1
  {
    var keys, counts := t.keys + [x], t.counts[x := 1];
    assert Bump(t, x) == Table(keys, counts);
    assert x !in t.keys;
    AppendFreshKeepsDistinct(t.keys, x);
    assert forall k :: k in keys <==> k in t.keys || k == x;
    SumCountsAppendFresh(t.keys, t.counts, x);
  }

  lemma SumCountsAppendFresh(keys: seq<string>, counts: map<string, nat>, x: string)
    requires forall k :: k in keys ==> k in counts
    requires x !in keys
    ensures SumCounts(keys + [x], counts[x := 1]) == SumCounts(keys, counts) + 1
  {
    assert (keys + [x])[..|keys|] == keys;
    SumCountsUnrelated(keys, counts, x, 1);
  }

  lemma AppendFreshKeepsDistinct(keys: seq<string>, x: string)
    requires forall i, j :: 0 <= i < j < |keys| ==> keys[i] != keys[j]
    requires x !in keys
    ensures var keys' := keys + [x]; forall i, j :: 0 <= i < j < |keys'| ==> keys'[i] != keys'[j]
  {
    var keys' := keys + [x];
    forall i, j | 0 <= i < j < |keys'| ensures keys'[i] != keys'[j] {
      if j < |keys| {
        assert keys'[i] == keys[i] && keys'[j] == keys[j];
      } else {
        assert keys'[i] == keys[i] && keys[i] in keys;
      }
    }
  }

  /** Counting a sequence of tokens into an empty dictionary keeps it in step with them. */
  lemma {:induction false} CountedTable(toks: seq<string>)
    ensures Counts(BumpAll(Empty, toks), toks)
  {
    if toks != [] {
      var init := toks[..|toks| - 1];
      assert toks == init + [toks[|toks| - 1]];
      CountedTable(init);
      BumpCounts(BumpAll(Empty, init), init, toks[|toks| - 1]);
    }
  }

  /** Every key occurs in `toks`, and the keys stand in the order of their first occurrence. */
  ghost predicate InFirstOccurrenceOrder(keys: seq<string>, toks: seq<string>) {
    (forall k :: k in keys ==> k in toks)
    && forall i, j :: 0 <= i < j < |keys| ==> FirstIndex(toks, keys[i]) < FirstIndex(toks, keys[j])
  }

  lemma FirstIndexAppend(s: seq<string>, x: string, k: string)
    requires k in s + [x]
    ensures FirstIndex(s + [x], k) == if k in s then FirstIndex(s, k) else |s|
  {
    assert (s + [x])[..|s|] == s;
  }

  /** Appending a token keeps the keys in first-occurrence order, a new token going last. */
  lemma OrderAppend(keys: seq<string>, toks: seq<string>, x: string)
    requires InFirstOccurrenceOrder(keys, toks)
    ensures InFirstOccurrenceOrder(if x in toks then keys else keys + [x], toks + [x])
  {
    var keys' := if x in toks then keys else keys + [x];
    var toks' := toks + [x];
    forall k | k in keys' ensures k in toks' && FirstIndex(toks', k) == if k in toks then FirstIndex(toks, k) else |toks| {
      FirstIndexAppend(toks, x, k);
    }
    forall i, j | 0 <= i < j < |keys'| ensures FirstIndex(toks', keys'[i]) < FirstIndex(toks', keys'[j]) {
      assert keys'[i] in keys' && keys'[j] in keys';
      if j < |keys| {
        assert keys'[i] == keys[i] && keys'[j] == keys[j];
      } else {
        assert keys'[i] == keys[i];
      }
    }
  }

  /** The keys of a counted dictionary stand in the order of their first occurrence. */
  lemma {:induction false} CountedOrder(toks: seq<string>)
    ensures InFirstOccurrenceOrder(BumpAll(Empty, toks).keys, toks)
  {
    if toks != [] {
      var init := toks[..|toks| - 1];
      var x := toks[|toks| - 1];
      assert toks == init + [x];
      CountedOrder(init);
      CountedTable(init);
      var t0 := BumpAll(Empty, init);
      OrderAppend(t0.keys, init, x);
    }
  }

  /** What `parse_html` returns when every row has a second cell: its keys are exactly the
    * colour tokens of the document, without whitespace ends or newlines, in the order of
    * their first occurrence; each count is the token's number of occurrences, at least one;
    * the counts add up to the number of tokens, which is at least the number of rows; and
    * the dictionary is empty exactly when there are no rows.
    */
  lemma ParseHtmlTable(rows: seq<Row>, t: Table)
    requires Tally(rows) == Ok(t)
    ensures t.WellFormed() && t.Positive()
    ensures forall k :: k in t.counts <==> k in Colors(rows)
    ensures forall k :: k in t.counts ==> t.counts[k] == Occurrences(Colors(rows), k)
    ensures forall k :: k in t.keys ==> Trimmed(k) && '\n' !in k
    ensures forall i, j :: 0 <= i < j < |t.keys| ==>
              FirstIndex(Colors(rows), t.keys[i]) < FirstIndex(Colors(rows), t.keys[j])
    ensures Total(t) == |Colors(rows)| >= |rows|
    ensures rows == [] <==> t == Empty
  {
    TallyCountsColors(rows);
    CountedTable(Colors(rows));
    CountedOrder(Colors(rows));
    ColorsClean(rows);
    ColorsPerRow(rows);
    if rows != [] {
      assert Colors(rows)[0] in t.counts;
    }
  }

  /** Only the second cell of each row, and whether it exists, affects the result. */
  lemma {:induction false} OnlySecondCellMatters(rows: seq<Row>, other: seq<Row>)
    requires |rows| == |other|
    requires forall i :: 0 <= i < |rows| ==> (|rows[i]| >= 2 <==> |other[i]| >= 2)
    requires forall i :: 0 <= i < |rows| && |rows[i]| >= 2 ==> rows[i][1] == other[i][1]
    ensures Tally(rows) == Tally(other)
  {
    if rows != [] {
      var n := |rows| - 1;
      OnlySecondCellMatters(rows[..n], other[..n]);
    }
  }
}
