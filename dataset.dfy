/** The table steps of dataset building: cleaning the text columns of a table
    in place (`sentences_proc`), adding the space-joined `merged` and `X`
    columns, padding a column, and encoding padded columns into id rows. */
module Dataset {
  import opened PyStr
  import opened Vocabulary
  import opened Cleaning
  import opened Encoding

  /** The columns `sentences_proc` always cleans, in its order. */
  const TextColumns: seq<string> := ["Brand", "Model", "Question", "Dialogue"]
  /** The target column, cleaned only when the table has it. */
  const ReportColumn: string := "Report"

  /** `column.apply(sentence_proc)` */
  function CleanColumn(column: seq<string>, res: Resources): (r: seq<string>)
    ensures |r| == |column|
  {
    seq(|column|, i requires 0 <= i < |column| => SentenceProc(column[i], res))
  }

  /** `column.apply(lambda x: pad_proc(x, max_len, vocab))`: one padded cell
      per cell, each splitting into that cell's padded tokens, `max_len + 2`
      of them. */
  function PadColumn(column: seq<string>, maxLen: int, members: set<string>): (r: seq<string>)
    ensures |r| == |column|
    ensures forall i :: 0 <= i < |r| ==> Split(r[i], ' ') == PadTokens(column[i], maxLen, members)
    ensures maxLen >= 0 ==> forall i :: 0 <= i < |r| ==> |Split(r[i], ' ')| == maxLen + 2
  {
    seq(|column|, i requires 0 <= i < |column| => PadProc(column[i], maxLen, members))
  }

  /** `column.apply(lambda x: transform_data(x, vocab))`: one id list per
      cell, with one id per `' '`-split token of that cell, in order. */
  function EncodeColumn(column: seq<string>, v: Vocab): (r: seq<seq<int>>)
    ensures |r| == |column|
    ensures forall i :: 0 <= i < |r| ==> |r[i]| == |Split(column[i], ' ')|
    ensures forall i, k :: 0 <= i < |r| && 0 <= k < |r[i]| ==> r[i][k] == Lookup(v, Split(column[i], ' ')[k])
  {
    seq(|column|, i requires 0 <= i < |column| => TransformData(column[i], v))
  }

  /** The per-row counts `get_max_len` averages, `x.count(' ') + 1`: each is
      the number of `' '`-split tokens of its cell, so at least one. */
  function TokenCounts(column: seq<string>): (counts: seq<nat>)
    ensures |counts| == |column|
    ensures forall i :: 0 <= i < |column| ==> counts[i] == |Split(column[i], ' ')| && counts[i] >= 1
  {
    SplitLengthEach(column);
    seq(|column|, i requires 0 <= i < |column| => Count(column[i], ' ') + 1)
  }

  lemma SplitLengthEach(column: seq<string>)
    ensures forall i :: 0 <= i < |column| ==> |Split(column[i], ' ')| == Count(column[i], ' ') + 1
  {
    forall i | 0 <= i < |column| ensures |Split(column[i], ' ')| == Count(column[i], ' ') + 1 {
      SplitLength(column[i], ' ');
    }
  }

  /** The fixed text columns are distinct, and the report column is not one of them. */
  lemma TextColumnsDistinct()
    ensures NoDuplicates(TextColumns)
    ensures ReportColumn !in TextColumns
  {
  }

  /** Whether the table has every one of the named columns. */
  predicate AllPresent(columns: map<string, seq<string>>, names: seq<string>)
  {
    forall j :: 0 <= j < |names| ==> names[j] in columns
  }

  /** The table with one of its columns cleaned. */
  function CleanNamed(columns: map<string, seq<string>>, name: string, res: Resources): (r: map<string, seq<string>>)
    requires name in columns
  {
    columns[name := CleanColumn(columns[name], res)]
  }

  /** The table once the named columns are cleaned, one after the other. */
  ghost function CleanedInOrder(columns: map<string, seq<string>>, names: seq<string>, res: Resources): (r: map<string, seq<string>>)
    requires AllPresent(columns, names)
    ensures r.Keys == columns.Keys
    ensures forall c :: c in r ==> |r[c]| == |columns[c]|
    decreases |names|
  {
    if |names| == 0 then columns
    else
      var front := names[..|names| - 1];
      assert AllPresent(columns, front) by {
        forall j | 0 <= j < |front| ensures front[j] in columns {
          assert front[j] == names[j];
        }
      }
      CleanNamed(CleanedInOrder(columns, front, res), names[|names| - 1], res)
  }

  /** Cleaning one more column extends the cleaned order by that column. */
  lemma CleanedInOrderNext(columns: map<string, seq<string>>, names: seq<string>, name: string, res: Resources)
    requires AllPresent(columns, names) && name in columns
    ensures AllPresent(columns, names + [name])
    ensures CleanedInOrder(columns, names + [name], res) == CleanNamed(CleanedInOrder(columns, names, res), name, res)
  {
    assert (names + [name])[..|names|] == names;
  }

  /** The report column cleaned, when the table has it. */
  function CleanedReport(columns: map<string, seq<string>>, res: Resources): (r: map<string, seq<string>>)
    ensures r.Keys == columns.Keys
    ensures forall c :: c in r ==> |r[c]| == |columns[c]|
  {
    if ReportColumn in columns then columns[ReportColumn := CleanColumn(columns[ReportColumn], res)] else columns
  }

  /** Cleaning distinct columns in order cleans each of them exactly once and
      leaves every other column as it was. */
  lemma {:induction false} CleanedInOrderCells(columns: map<string, seq<string>>, names: seq<string>, res: Resources)
    requires AllPresent(columns, names) && NoDuplicates(names)
    ensures forall c :: c in columns ==>
              CleanedInOrder(columns, names, res)[c]
              == if c in names then CleanColumn(columns[c], res) else columns[c]
    decreases |names|
  {
    if |names| > 0 {
      var front, last := names[..|names| - 1], names[|names| - 1];
      assert names == front + [last];
      assert AllPresent(columns, front) by {
        forall j | 0 <= j < |front| ensures front[j] in columns {
          assert front[j] == names[j];
        }
      }
      assert NoDuplicates(front) by {
        forall i, j | 0 <= i < j < |front| ensures front[i] != front[j] {
          assert front[i] == names[i] && front[j] == names[j];
        }
      }
      assert last !in front by {
        forall j | 0 <= j < |front| ensures front[j] != last {
          assert front[j] == names[j];
        }
      }
      CleanedInOrderCells(columns, front, res);
      CleanedInOrderNext(columns, front, last, res);
    }
  }

  /** When every fixed column is present, `sentences_proc` cleans exactly the
      four fixed columns and the report column, each once, and leaves every
      other column as it was. */
  lemma CompletedCells(columns: map<string, seq<string>>, res: Resources)
    requires AllPresent(columns, TextColumns)
    ensures forall c :: c in columns ==>
              CleanedReport(CleanedInOrder(columns, TextColumns, res), res)[c]
              == if c in TextColumns || c == ReportColumn then CleanColumn(columns[c], res) else columns[c]
  {
    TextColumnsDistinct();
    CleanedInOrderCells(columns, TextColumns, res);
  }

  /** The cells of one row, taken from the named columns in order. */
  function RowCells(columns: map<string, seq<string>>, sources: seq<string>, row: nat): (cells: seq<string>)
    requires forall j :: 0 <= j < |sources| ==> sources[j] in columns && row < |columns[sources[j]]|
  {
    seq(|sources|, j requires 0 <= j < |sources| => columns[sources[j]][row])
  }

  /** `df[sources].apply(lambda x: ' '.join(x), axis=1)`: one cell per row,
      and with at least one source, the tokens of a joined row are the tokens
      of each source cell, one cell after the other. */
  function JoinedColumn(columns: map<string, seq<string>>, sources: seq<string>, rows: nat): (r: seq<string>)
    requires forall j :: 0 <= j < |sources| ==> sources[j] in columns && |columns[sources[j]]| == rows
    ensures |r| == rows
    ensures |sources| >= 1 ==>
              forall i :: 0 <= i < rows ==> Split(r[i], ' ') == SplitEach(RowCells(columns, sources, i), ' ')
  {
    var r := seq(rows, i requires 0 <= i < rows => Join(RowCells(columns, sources, i), " "));
    assert |sources| >= 1 ==>
             forall i :: 0 <= i < rows ==> Split(r[i], ' ') == SplitEach(RowCells(columns, sources, i), ' ') by {
      if |sources| >= 1 {
        forall i | 0 <= i < rows
          ensures Split(r[i], ' ') == SplitEach(RowCells(columns, sources, i), ' ')
        {
          SplitJoinEach(RowCells(columns, sources, i), ' ');
        }
      }
    }
    r
  }

  /** A table: named columns of strings, all of the same length. */
  class Frame {
    var columns: map<string, seq<string>>
    var rows: nat

    ghost predicate Valid()
      reads this
    {
      forall c :: c in columns ==> |columns[c]| == rows
    }

    constructor (columns: map<string, seq<string>>, rows: nat)
      requires forall c :: c in columns ==> |columns[c]| == rows
      ensures Valid() && this.columns == columns && this.rows == rows
    {
      this.columns := columns;
      this.rows := rows;
    }

    /** The loop of `sentences_proc`: clean Brand, Model, Question and
        Dialogue in place, in that order, stopping at the first one missing.
        `cleaned` is the number of fixed columns cleaned, which is the
        position of the missing column when one is missing. */
    method CleanTextColumns(res: Resources) returns (cleaned: nat)
      requires Valid()
      modifies this
      ensures Valid() && rows == old(rows)
      ensures cleaned <= |TextColumns| && AllPresent(old(columns), TextColumns[..cleaned])
      ensures cleaned < |TextColumns| ==> TextColumns[cleaned] !in old(columns)
      ensures columns == CleanedInOrder(old(columns), TextColumns[..cleaned], res)
    {
      var start, table := columns, columns;
      cleaned := 0;
      while cleaned < |TextColumns| && TextColumns[cleaned] in table
        invariant cleaned <= |TextColumns| && AllPresent(start, TextColumns[..cleaned])
        invariant table == CleanedInOrder(start, TextColumns[..cleaned], res)
        modifies {}
      {
        var name := TextColumns[cleaned];
        CleanedInOrderNext(start, TextColumns[..cleaned], name, res);
        assert TextColumns[..cleaned + 1] == TextColumns[..cleaned] + [name];
        table := CleanNamed(table, name, res);
        cleaned := cleaned + 1;
      }
      columns := table;
    }

    /** `sentences_proc(df)`: the loop above, then Report when the table has
        it. A missing fixed column raises (`ok` is false) after the columns
        before it were cleaned. `CleanedInOrderCells` and `CompletedCells` say
        which columns change. */
    method SentencesProc(res: Resources) returns (ok: bool)
      requires Valid()
      modifies this
      ensures Valid() && rows == old(rows)
      ensures ok <==> AllPresent(old(columns), TextColumns)
      ensures ok ==> columns == CleanedReport(CleanedInOrder(old(columns), TextColumns, res), res)
      ensures !ok ==> exists i :: 0 <= i < |TextColumns| && AllPresent(old(columns), TextColumns[..i])
                                  && TextColumns[i] !in old(columns)
                                  && columns == CleanedInOrder(old(columns), TextColumns[..i], res)
    {
      var cleaned := CleanTextColumns(res);
      if cleaned < |TextColumns| {
        return false;
      }
      assert TextColumns[..cleaned] == TextColumns;
      columns := CleanedReport(columns, res);
      ok := true;
    }

    /** `df[target] = df[sources].apply(lambda x: ' '.join(x), axis=1)`, as for
        the `merged` column (Question, Dialogue, Report) and the `X` column
        (Question, Dialogue). A missing source column raises (`ok` is false)
        and changes nothing. */
    method JoinColumns(target: string, sources: seq<string>) returns (ok: bool)
      requires Valid()
      modifies this
      ensures Valid() && rows == old(rows)
      ensures ok <==> forall j :: 0 <= j < |sources| ==> sources[j] in old(columns)
      ensures ok ==> columns == old(columns)[target := JoinedColumn(old(columns), sources, rows)]
      ensures !ok ==> columns == old(columns)
    {
      if !(forall j :: 0 <= j < |sources| ==> sources[j] in columns) {
        return false;
      }
      columns := columns[target := JoinedColumn(columns, sources, rows)];
      ok := true;
    }

    /** `df[target] = df[source].apply(lambda x: pad_proc(x, max_len, vocab))`.
        A missing source column raises (`ok` is false) and changes nothing. */
    method PadInto(target: string, source: string, maxLen: int, members: set<string>) returns (ok: bool)
      requires Valid()
      modifies this
      ensures Valid() && rows == old(rows)
      ensures ok <==> source in old(columns)
      ensures ok ==> columns == old(columns)[target := PadColumn(old(columns)[source], maxLen, members)]
      ensures !ok ==> columns == old(columns)
    {
      if source !in columns {
        return false;
      }
      columns := columns[target := PadColumn(columns[source], maxLen, members)];
      ok := true;
    }

    /** `df = df.drop([name], axis=1)`, as done with the `merged` column once
        the corpus is taken. A missing column raises (`ok` is false) and
        changes nothing; otherwise only that column goes. */
    method DropColumn(name: string) returns (ok: bool)
      requires Valid()
      modifies this
      ensures Valid() && rows == old(rows)
      ensures ok <==> name in old(columns)
      ensures columns.Keys == old(columns).Keys - {name}
      ensures forall c :: c in columns ==> columns[c] == old(columns)[c]
    {
      if name !in columns {
        return false;
      }
      columns := columns - {name};
      ok := true;
    }
  }

  /** For one row: the tokens of Question + ' ' + Dialogue + ' ' + Report. An
      empty cell still contributes one empty token. */
  lemma MergedRowTokens(question: string, dialogue: string, report: string)
    ensures Split(Join([question, dialogue, report], " "), ' ')
            == Split(question, ' ') + Split(dialogue, ' ') + Split(report, ' ')
    ensures Count(Join([question, dialogue, report], " "), ' ') + 1
            == (Count(question, ' ') + 1) + (Count(dialogue, ' ') + 1) + (Count(report, ' ') + 1)
  {
    var cells := [question, dialogue, report];
    SplitJoinEach(cells, ' ');
    assert cells[1..] == [dialogue, report];
    assert cells[1..][1..] == [report];
    assert cells[1..][1..][1..] == [];
    assert SplitEach(cells[1..][1..], ' ') == Split(report, ' ') + SplitEach(cells[1..][1..][1..], ' ');
    assert SplitEach(cells[1..], ' ') == Split(dialogue, ' ') + SplitEach(cells[1..][1..], ' ');
    SplitLength(Join(cells, " "), ' ');
    SplitLength(question, ' ');
    SplitLength(dialogue, ' ');
    SplitLength(report, ' ');
  }

  /** Padding then encoding a column gives a rectangular id matrix: every row
      has exactly `max_len + 2` ids and starts with the start marker's id. */
  lemma EncodedColumnIsRectangular(column: seq<string>, maxLen: int, members: set<string>, v: Vocab)
    requires maxLen >= 0
    ensures var m := EncodeColumn(PadColumn(column, maxLen, members), v);
            && |m| == |column|
            && forall i :: 0 <= i < |m| ==> |m[i]| == maxLen + 2 && m[i][0] == Lookup(v, StartDecoding)
  {
    var m := EncodeColumn(PadColumn(column, maxLen, members), v);
    forall i | 0 <= i < |m|
      ensures |m[i]| == maxLen + 2 && m[i][0] == Lookup(v, StartDecoding)
    {
      EncodedPadLayout(column[i], maxLen, members, v);
    }
  }
}
