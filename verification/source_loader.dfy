/** `load_source`: the blocklist file, read line by line into a lookup table
    that maps every line to `true`. The file is given as the outcome of opening
    it and of each line read, so that I/O failures are inputs of the model. */
module SourceLoader {
  import opened LineParser

  datatype IoError = OpenError | ReadError

  /** One item of `BufReader::lines`: a line (terminator removed) or a failed read. */
  datatype LineRead = Line(text: string) | Unreadable

  /** The blocklist file: it could not be opened, or it yields these results of line reads. */
  datatype Source = Unopenable | Opened(items: seq<LineRead>)

  datatype LoadResult = Loaded(table: map<string, bool>) | Failed(error: IoError)

  predicate AllReadable(items: seq<LineRead>) {
    forall k :: 0 <= k < |items| ==> items[k].Line?
  }

  /** The texts of the successfully read lines. */
  function LineSet(items: seq<LineRead>): set<string> {
    if |items| == 0 then {}
    else (if items[0].Line? then {items[0].text} else {}) + LineSet(items[1..])
  }

  /** The table the loader promises: each key maps to `true`. */
  function AllTrue(keys: set<string>): map<string, bool> {
    map key | key in keys :: true
  }

  /** The loader's loop over the file's line reads: each line read is
      inserted with value `true`; the first failed read abandons the table
      and returns the error. */
  function InsertLines(table: map<string, bool>, items: seq<LineRead>): (r: LoadResult)
    ensures r.Failed? <==> !AllReadable(items)
    ensures r.Failed? ==> r.error == ReadError
    ensures r.Loaded? ==> r.table.Keys == table.Keys + LineSet(items)
    ensures r.Loaded? ==> forall key :: key in LineSet(items) ==> r.table[key]
    ensures r.Loaded? ==> forall key :: key in table && key !in LineSet(items) ==> r.table[key] == table[key]
    decreases |items|
  {
    if |items| == 0 then Loaded(table)
    else
      match items[0]
      case Unreadable => Failed(ReadError)
      case Line(text) =>
        assert forall k :: 1 <= k < |items| ==> items[k] == items[1..][k - 1];
        InsertLines(table[text := true], items[1..])
  }

  /** `load_source`: opening fails with `OpenError`, any failed line read with
      `ReadError` and no partial table; otherwise the keys are exactly the
      lines, stored verbatim, each mapped to `true`. */
  function LoadSource(source: Source): (r: LoadResult)
    ensures source.Unopenable? ==> r == Failed(OpenError)
    ensures source.Opened? ==> (r.Failed? <==> !AllReadable(source.items))
    ensures source.Opened? && r.Failed? ==> r.error == ReadError
    ensures r.Loaded? ==> source.Opened? && r.table == AllTrue(LineSet(source.items))
  {
    match source
    case Unopenable => Failed(OpenError)
    case Opened(items) => InsertLines(map[], items)
  }

  /** A line text is a key exactly when some read produced it. */
  lemma {:induction false} LineSetMembers(items: seq<LineRead>, key: string)
    ensures key in LineSet(items) <==> exists k :: 0 <= k < |items| && items[k] == Line(key)
  {
    if |items| > 0 {
      LineSetMembers(items[1..], key);
      if key in LineSet(items[1..]) {
        var k :| 0 <= k < |items[1..]| && items[1..][k] == Line(key);
        assert items[k + 1] == Line(key);
      }
      if exists k :: 0 <= k < |items| && items[k] == Line(key) {
        var k :| 0 <= k < |items| && items[k] == Line(key);
        if k > 0 {
          assert items[1..][k - 1] == Line(key);
        }
      }
    }
  }

  lemma {:induction false} LineSetAppend(a: seq<LineRead>, b: seq<LineRead>)
    ensures LineSet(a + b) == LineSet(a) + LineSet(b)
  {
    if |a| > 0 {
      assert (a + b)[1..] == a[1..] + b;
      LineSetAppend(a[1..], b);
    } else {
      assert a + b == b;
    }
  }

  /** Loading depends only on the set of lines: order and repetition of the
      lines do not change the table. */
  lemma LoadDependsOnlyOnLineSet(a: seq<LineRead>, b: seq<LineRead>)
    requires AllReadable(a) && AllReadable(b)
    requires LineSet(a) == LineSet(b)
    ensures LoadSource(Opened(a)) == LoadSource(Opened(b))
  {
  }

  /** Duplicate lines collapse: a file listing every line twice loads the same table. */
  lemma LoadIgnoresRepetition(items: seq<LineRead>)
    ensures LoadSource(Opened(items + items)) == LoadSource(Opened(items))
  {
    LineSetAppend(items, items);
    if !AllReadable(items) {
      var k :| 0 <= k < |items| && !items[k].Line?;
      assert (items + items)[k] == items[k];
    }
  }

  /** The line reads of a file whose whole content reads without error. */
  function ItemsOf(lines: seq<string>): (items: seq<LineRead>)
    ensures |items| == |lines|
    ensures forall k :: 0 <= k < |lines| ==> items[k] == Line(lines[k])
  {
    if |lines| == 0 then [] else [Line(lines[0])] + ItemsOf(lines[1..])
  }

  /** A readable blocklist file: its lines (split like `str::lines`, one path
      per line, no trimming) are exactly the keys, all mapped to `true`; an
      empty file gives an empty table. */
  lemma LoadFileContent(content: string)
    ensures LoadSource(Opened(ItemsOf(Lines(content))))
         == Loaded(AllTrue(set k | 0 <= k < |Lines(content)| :: Lines(content)[k]))
    ensures content == "" ==> LoadSource(Opened(ItemsOf(Lines(content)))) == Loaded(map[])
  {
  }
}
