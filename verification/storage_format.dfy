/** The stub server's storage file: one line "key,value" per entry, written
    by `saveDataToStorage` and read back line by line by
    `loadDataFromStorage`, which keeps a line only when splitting it at
    commas gives exactly two parts. */
module StorageFormat {
  import opened Java
  import opened JavaText
  import opened Store

  /** The line `saveDataToStorage` writes for one entry; a null value is
      written as "null", as string concatenation does. */
  function EncodeEntry(key: string, value: JString): (line: string)
    ensures ',' in line
    ensures ',' !in key ==> Cut(line, ',') == (key, AsText(value))
    ensures Free(line, LineBreaks) <==> Free(key, LineBreaks) && Free(AsText(value), LineBreaks)
  {
    var line := key + "," + AsText(value);
    assert line[|key|] == ',';
    assert line == key + [','] + AsText(value);
    assert ',' !in key ==> Cut(line, ',') == (key, AsText(value)) by {
      if ',' !in key {
        CutAfterHead(key, ',', AsText(value));
      }
    }
    FreeConcat(key, ",", LineBreaks);
    FreeConcat(key + ",", AsText(value), LineBreaks);
    line
  }

  /** What `loadDataFromStorage` takes from one line: the two parts of
      `line.split(",")` when there are exactly two, else nothing. Since
      `split` drops trailing empty strings, a loaded value is never empty. */
  function DecodeLine(line: string): (r: Option<(string, string)>)
    ensures r.Some? ==> Free(r.value.0, {','}) && Free(r.value.1, {','})
    ensures r.Some? ==> r.value.1 != []
    ensures Free(line, {','}) ==> r.None?
  {
    var parts := Split(line, ',');
    if |parts| == 2 then
      assert Free(parts[0], {','}) && Free(parts[1], {','}) by {
        SplitAllFree(line, ',');
        FreeOfChar(parts[0], ',');
        FreeOfChar(parts[1], ',');
      }
      Some((parts[0], parts[1]))
    else None
  }

  /** The storage map after `storage.put(parts[0], parts[1])` for every
      line that decodes, in order; other lines are skipped. */
  function LoadLines(storage: Table, lines: seq<string>): (r: Table)
    ensures storage.Keys <= r.Keys
    ensures forall k :: k in r ==> (k in storage && r[k] == storage[k]) || (r[k].Some? && r[k].value != [])
    decreases |lines|
  {
    if lines == [] then storage
    else
      var next := match DecodeLine(lines[0])
        case Some(kv) => storage[kv.0 := Some(kv.1)]
        case None => storage;
      LoadLines(next, lines[1..])
  }

  /** The lines written for the keys of `order`, in that order. */
  function EncodeLines(table: Table, order: seq<string>): (lines: seq<string>)
    requires forall i :: 0 <= i < |order| ==> order[i] in table
    ensures |lines| == |order|
    ensures forall i {:trigger DecodeLine(lines[i])} :: 0 <= i < |order| && Storable(order[i], table[order[i]]) ==>
      DecodeLine(lines[i]) == Some((order[i], AsText(table[order[i]])))
  {
    var lines := seq(|order|, i requires 0 <= i < |order| => EncodeEntry(order[i], table[order[i]]));
    assert forall i :: 0 <= i < |order| && Storable(order[i], table[order[i]]) ==>
      DecodeLine(lines[i]) == Some((order[i], AsText(table[order[i]]))) by {
      forall i | 0 <= i < |order| && Storable(order[i], table[order[i]])
        ensures DecodeLine(lines[i]) == Some((order[i], AsText(table[order[i]])))
      {
        DecodeEncodeEntry(order[i], table[order[i]]);
      }
    }
    lines
  }

  /** The file text `saveDataToStorage` leaves behind: one line per entry,
      in the map's iteration order, each ended by a line separator. */
  ghost function SaveText(table: Table): (text: string)
    ensures text == [] <==> table == map[]
    ensures text != [] ==> text[|text| - 1] == '\n'
  {
    var order := IterationOrder(table.Keys);
    WriteLines(EncodeLines(table, order))
  }

  /** `loadDataFromStorage` reading the file text into `storage`. */
  function LoadText(storage: Table, text: string): (r: Table)
    ensures text == [] ==> r == storage
    ensures storage.Keys <= r.Keys
    ensures forall k :: k in r ==> (k in storage && r[k] == storage[k]) || (r[k].Some? && r[k].value != [])
  {
    LoadLines(storage, ReadLines(text))
  }

  /** An entry the file can carry: neither key nor value text holds a comma
      or a line break, and the value text is not empty. */
  predicate Storable(key: string, value: JString)
  {
    && Free(key, {','} + LineBreaks)
    && Free(AsText(value), {','} + LineBreaks)
    && AsText(value) != []
  }

  /** What a reload makes of a map: every value as the text it was written
      as, so a null value comes back as the string "null". */
  function Reloaded(table: Table): (r: Table)
    ensures r.Keys == table.Keys
    ensures forall k :: k in r ==> r[k].Some?
  {
    map k | k in table :: Some(AsText(table[k]))
  }

  /** An encoded entry decodes to its key and its value's text. */
  lemma DecodeEncodeEntry(key: string, value: JString)
    requires Free(key, {','}) && Free(AsText(value), {','}) && AsText(value) != []
    ensures DecodeLine(EncodeEntry(key, value)) == Some((key, AsText(value)))
  {
    var text := AsText(value);
    var line := key + [','] + text;
    assert EncodeEntry(key, value) == line;
    SplitAllCons(key, ',', text);
    assert !Free(line, {','}) by { assert line[|key|] == ','; }
    assert SplitAll(line, ',') == [key, text];
  }

  /** A null value is written as "null" and comes back as that string. */
  lemma NullReloadsAsText(key: string)
    requires Free(key, {','})
    ensures DecodeLine(EncodeEntry(key, None)) == Some((key, "null"))
  {
    DecodeEncodeEntry(key, None);
  }

  /** An empty value is lost: its line splits into fewer than two parts. */
  lemma EmptyValueNotReloaded(key: string)
    requires Free(key, {','})
    ensures DecodeLine(EncodeEntry(key, Some(""))).None?
  {
    var line := key + [','] + "";
    assert EncodeEntry(key, Some("")) == line;
    SplitAllCons(key, ',', "");
    assert !Free(line, {','}) by { assert line[|key|] == ','; }
    assert SplitAll(line, ',') == [key, ""];
  }

  /** Loading the lines written for `order` on top of `storage` sets each
      key of `order` to its value's text and leaves every other key as it
      was. */
  lemma {:induction false} LoadEncodedLines(storage: Table, table: Table, order: seq<string>)
    requires forall i :: 0 <= i < |order| ==> order[i] in table && Storable(order[i], table[order[i]])
    ensures forall k :: k in LoadLines(storage, EncodeLines(table, order)) <==> k in storage || k in order
    ensures forall k :: k in LoadLines(storage, EncodeLines(table, order)) ==>
      LoadLines(storage, EncodeLines(table, order))[k] == if k in order then Some(AsText(table[k])) else storage[k]
    decreases |order|
  {
    if order != [] {
      var key := order[0];
      var next := storage[key := Some(AsText(table[key]))];
      LoadEncodedHead(storage, table, order);
      LoadEncodedLines(next, table, order[1..]);
      assert forall k :: k in order <==> k == key || k in order[1..];
    }
  }

  /** Loading the first written line stores its entry; the remaining lines
      are the ones written for the rest of the order. */
  lemma LoadEncodedHead(storage: Table, table: Table, order: seq<string>)
    requires order != [] && forall i :: 0 <= i < |order| ==> order[i] in table && Storable(order[i], table[order[i]])
    ensures LoadLines(storage, EncodeLines(table, order))
         == LoadLines(storage[order[0] := Some(AsText(table[order[0]]))], EncodeLines(table, order[1..]))
  {
    var lines := EncodeLines(table, order);
    DecodeEncodeEntry(order[0], table[order[0]]);
    assert lines[0] == EncodeEntry(order[0], table[order[0]]);
    EncodeLinesTail(table, order);
  }

  /** The lines after the first are the lines written for the rest of the
      order. */
  lemma EncodeLinesTail(table: Table, order: seq<string>)
    requires order != [] && forall i :: 0 <= i < |order| ==> order[i] in table
    ensures EncodeLines(table, order)[1..] == EncodeLines(table, order[1..])
  {
    var lines := EncodeLines(table, order);
    var tail := EncodeLines(table, order[1..]);
    forall i | 0 <= i < |tail| ensures lines[1..][i] == tail[i] {
      assert order[1..][i] == order[i + 1];
    }
  }

  /** No line written for storable entries holds a line break. */
  lemma EncodedLinesFree(table: Table, order: seq<string>)
    requires forall i :: 0 <= i < |order| ==> order[i] in table && Storable(order[i], table[order[i]])
    ensures forall i :: 0 <= i < |order| ==> Free(EncodeLines(table, order)[i], LineBreaks)
  {
    forall i | 0 <= i < |order| ensures Free(EncodeLines(table, order)[i], LineBreaks) {
      assert EncodeLines(table, order)[i] == EncodeEntry(order[i], table[order[i]]);
      assert Free(order[i], LineBreaks) && Free(AsText(table[order[i]]), LineBreaks) by {
        FreeConcat(order[i], [], {','} + LineBreaks);
      }
    }
  }

  /** Saving a map and loading the file into an empty storage gives the
      map back, with null values turned into the text "null", provided
      every entry is storable. */
  lemma SaveLoadRoundTrip(table: Table)
    requires forall k :: k in table ==> Storable(k, table[k])
    ensures LoadText(map[], SaveText(table)) == Reloaded(table)
  {
    var order := IterationOrder(table.Keys);
    var lines := EncodeLines(table, order);
    assert ReadLines(SaveText(table)) == lines by {
      EncodedLinesFree(table, order);
      ReadWriteLines(lines);
    }
    LoadAllEncoded(table, order);
  }

  /** Two tables with the same keys and the same value at each are equal. */
  lemma SameEntries(a: Table, b: Table)
    requires a.Keys == b.Keys && forall k :: k in a ==> a[k] == b[k]
    ensures a == b
  {
  }

  /** Loading into an empty storage the lines written for every key of a
      map gives the map back, values as text. */
  lemma LoadAllEncoded(table: Table, order: seq<string>)
    requires forall k :: k in table <==> k in order
    requires forall i :: 0 <= i < |order| ==> Storable(order[i], table[order[i]])
    ensures LoadLines(map[], EncodeLines(table, order)) == Reloaded(table)
  {
    var r := LoadLines(map[], EncodeLines(table, order));
    var want := Reloaded(table);
    assert r.Keys == want.Keys && forall k :: k in r ==> r[k] == want[k] by {
      LoadEncodedLines(map[], table, order);
    }
    SameEntries(r, want);
  }
}
