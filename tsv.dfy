/** The TSV-to-record parser `tsvToObjects` (main.js:28-64): the first line
    names the properties, every later line becomes one record whose values are
    typed by the suffix of their property name. */
module Tsv {
  import opened Wrappers
  import opened JsString

  /** A property value of a record: a raw string, a comma-split array, the
      calendar-date part of an ISO-8601 timestamp, or whatever `Number(..)`
      makes of the cell. */
  datatype Value<N> = Str(s: string) | Arr(items: seq<string>) | Date(day: string) | Num(n: N)

  /** A parsed record; only its own properties are modelled, not their order. */
  type Record<N> = map<string, Value<N>>

  /** The JavaScript built-ins whose behaviour is engine dependent:
      `new Date(cell).toISOString()` (None when it throws a RangeError) and
      `Number(cell)`. */
  datatype Builtins<N> = Builtins(isoDate: string -> Option<string>, toNumber: string -> N)

  /** The exception that escapes `tsvToObjects`: the RangeError `toISOString`
      throws on an invalid date. The model records the cell that threw. */
  datatype Error = InvalidDate(cell: string)

  /** The type a property name asks for through its second hyphen-separated segment. */
  datatype Kind = ArrayColumn | DateColumn | NumberColumn | StringColumn

  /** The property name that a plain object silently refuses as an own key:
      assigning a primitive to it is ignored and assigning an array replaces the
      prototype, so no own property of that name ever appears. */
  const ProtoKey: string := "__proto__"

  // ---------------------------------------------------------------------------
  // Header cleaning (main.js:30-33)

  /** The characters `[a-zA-Z0-9_-]` that survive header cleaning. */
  predicate IsHeaderChar(c: char)
  {
    ('a' <= c <= 'z') || ('A' <= c <= 'Z') || ('0' <= c <= '9') || c == '_' || c == '-'
  }

  /** `property.replace(/[^a-zA-Z0-9_-]/g, "")`. */
  function Clean(s: string): string
    decreases |s|
  {
    if |s| == 0 then ""
    else (if IsHeaderChar(s[0]) then [s[0]] else []) + Clean(s[1..])
  }

  /** A cleaned header holds allowed characters only. */
  lemma {:induction false} CleanAllowed(s: string)
    ensures forall i :: 0 <= i < |Clean(s)| ==> IsHeaderChar(Clean(s)[i])
    decreases |s|
  {
    if |s| > 0 {
      CleanAllowed(s[1..]);
    }
  }

  /** Cleaning works character by character, keeping the order of what it keeps. */
  lemma {:induction false} CleanAppend(a: string, b: string)
    ensures Clean(a + b) == Clean(a) + Clean(b)
    decreases |a|
  {
    if |a| > 0 {
      assert (a + b)[1..] == a[1..] + b;
      CleanAppend(a[1..], b);
    } else {
      assert a + b == b;
    }
  }

  /** A string is left unchanged by cleaning exactly when all its characters are allowed. */
  lemma {:induction false} CleanFixedPoint(s: string)
    ensures Clean(s) == s <==> forall i :: 0 <= i < |s| ==> IsHeaderChar(s[i])
    decreases |s|
  {
    if |s| > 0 {
      CleanFixedPoint(s[1..]);
      CleanShorter(s[1..]);
      if IsHeaderChar(s[0]) {
        assert Clean(s) == [s[0]] + Clean(s[1..]);
        assert s == [s[0]] + s[1..];
        if Clean(s) == s {
          assert Clean(s[1..]) == s[1..];
        }
        if forall i :: 0 <= i < |s| ==> IsHeaderChar(s[i]) {
          assert forall i :: 0 <= i < |s[1..]| ==> IsHeaderChar(s[1..][i]) by {
            forall i | 0 <= i < |s[1..]| ensures IsHeaderChar(s[1..][i]) { assert s[1..][i] == s[i + 1]; }
          }
        }
      } else {
        assert |Clean(s)| < |s|;
      }
    }
  }

  /** Cleaning never lengthens a string. */
  lemma {:induction false} CleanShorter(s: string)
    ensures |Clean(s)| <= |s|
    decreases |s|
  {
    if |s| > 0 {
      CleanShorter(s[1..]);
    }
  }

  /** Cleaning twice is cleaning once. */
  lemma CleanIdempotent(s: string)
    ensures Clean(Clean(s)) == Clean(s)
  {
    CleanAllowed(s);
    CleanFixedPoint(Clean(s));
  }

  // ---------------------------------------------------------------------------
  // Type tags and property names (main.js:45-57)

  /** `property.split("-")[1]` compared with the three recognised tags;
      `undefined` (no hyphen) and any other segment give a string column. */
  function KindOf(property: string): Kind
  {
    var parts := Split(property, '-');
    if |parts| < 2 then StringColumn
    else if parts[1] == "array" then ArrayColumn
    else if parts[1] == "date" then DateColumn
    else if parts[1] == "number" then NumberColumn
    else StringColumn
  }

  /** The tag that selects a typed kind. */
  function TagName(k: Kind): string
    requires k != StringColumn
  {
    match k
    case ArrayColumn => "array"
    case DateColumn => "date"
    case NumberColumn => "number"
  }

  /** The key a column's value is stored under: `property.split("-")[0]` for a
      typed column, the whole cleaned property name otherwise. */
  function KeyOf(property: string): string
  {
    if KindOf(property) == StringColumn then property else Split(property, '-')[0]
  }

  /** A name made of a hyphen-free base, a hyphen, a recognised tag and
      nothing or further hyphenated segments is typed by that tag and keyed
      by the base. */
  lemma TypedHeader(base: string, k: Kind, rest: string)
    requires k != StringColumn
    requires '-' !in base
    requires rest == "" || rest[0] == '-'
    ensures KindOf(base + "-" + TagName(k) + rest) == k
    ensures KeyOf(base + "-" + TagName(k) + rest) == base
  {
    assert '-' !in TagName(k);
    SplitTwoPieces(base, TagName(k), rest, '-');
  }

  /** A name whose second segment is not a recognised tag, such as "a-b", is a
      string column keyed by the whole name. */
  lemma UntypedHeader(base: string, tag: string, rest: string)
    requires '-' !in base && '-' !in tag
    requires tag != "array" && tag != "date" && tag != "number"
    requires rest == "" || rest[0] == '-'
    ensures KindOf(base + "-" + tag + rest) == StringColumn
    ensures KeyOf(base + "-" + tag + rest) == base + "-" + tag + rest
  {
    SplitTwoPieces(base, tag, rest, '-');
  }

  /** A name without a hyphen has no tag: it is a string column keyed by itself. */
  lemma UnhyphenatedHeader(p: string)
    requires '-' !in p
    ensures KindOf(p) == StringColumn && KeyOf(p) == p
  {
    SplitWithoutSeparator(p, '-');
  }

  /** Conversely, a typed column's name is its key, a hyphen, its tag and then
      nothing or a further hyphenated segment; the key holds no hyphen. */
  lemma TypedHeaderShape(p: string)
    requires KindOf(p) != StringColumn
    ensures '-' !in KeyOf(p)
    ensures var n := |KeyOf(p)| + 1 + |TagName(KindOf(p))|;
      n <= |p| && p == KeyOf(p) + "-" + TagName(KindOf(p)) + p[n..] && (n == |p| || p[n] == '-')
  {
    SplitFirstTwo(p, '-');
  }

  // ---------------------------------------------------------------------------
  // Building one record (main.js:42-61)

  /** `values[index]` as the truthiness test sees it: a missing cell reads as empty. */
  function CellAt(values: seq<string>, i: nat): string
  {
    if i < |values| then values[i] else ""
  }

  /** The value a non-empty cell becomes in its column. */
  function Convert<N>(property: string, cell: string, b: Builtins<N>): Result<Value<N>, Error>
  {
    match KindOf(property)
    case ArrayColumn => Success(Arr(Split(cell, ',')))
    case DateColumn =>
      (match b.isoDate(cell)
       case None => Failure(InvalidDate(cell))
       case Some(iso) => Success(Date(Split(iso, 'T')[0])))
    case NumberColumn => Success(Num(b.toNumber(cell)))
    case StringColumn => Success(Str(cell))
  }

  /** `obj[key] = v` on an object created by `{}`. */
  function Assign<N>(obj: Record<N>, key: string, v: Value<N>): Record<N>
  {
    if key == ProtoKey then obj else obj[key := v]
  }

  /** The `reduce` over the first `n` header columns, starting from `{}`;
      the first exception ends it. */
  function Reduce<N>(properties: seq<string>, values: seq<string>, b: Builtins<N>, n: nat): Result<Record<N>, Error>
    requires n <= |properties|
  {
    if n == 0 then Success(map[])
    else
      match Reduce(properties, values, b, n - 1)
      case Failure(e) => Failure(e)
      case Success(obj) =>
        var cell := CellAt(values, n - 1);
        if cell == "" then Success(obj)
        else
          match Convert(properties[n - 1], cell, b)
          case Failure(e) => Failure(e)
          case Success(v) => Success(Assign(obj, KeyOf(properties[n - 1]), v))
  }

  /** The record built from one line's cells. */
  function RecordOf<N>(properties: seq<string>, values: seq<string>, b: Builtins<N>): Result<Record<N>, Error>
  {
    Reduce(properties, values, b, |properties|)
  }

  /** Column `i` puts a value under `k`. */
  predicate Contributes(properties: seq<string>, values: seq<string>, i: nat, k: string)
    requires i < |properties|
  {
    CellAt(values, i) != "" && KeyOf(properties[i]) == k && k != ProtoKey
  }

  /** Column `i` holds a date that cannot be converted. */
  predicate BadDate<N>(properties: seq<string>, values: seq<string>, b: Builtins<N>, i: nat)
    requires i < |properties|
  {
    CellAt(values, i) != "" && KindOf(properties[i]) == DateColumn && b.isoDate(CellAt(values, i)).None?
  }

  /** The meaning of each kind of column: an array is the comma-split of the
      cell (never empty, joining back to the cell, one piece per comma plus
      one); a date is the part of the ISO string before its first "T" and
      fails exactly when the date is invalid; a number is `Number(cell)`; any
      other column keeps the cell as it is. */
  lemma ConvertMeaning<N>(property: string, cell: string, b: Builtins<N>)
    ensures var r := Convert(property, cell, b);
      && (r.Failure? <==> KindOf(property) == DateColumn && b.isoDate(cell).None?)
      && (r.Failure? ==> r.error == InvalidDate(cell))
      && (KindOf(property) == ArrayColumn ==>
            r.Success? && r.value.Arr? && |r.value.items| >= 1 && |r.value.items| == Count(cell, ',') + 1
            && Join(r.value.items, ',') == cell && (',' !in cell ==> r.value.items == [cell]))
      && (KindOf(property) == DateColumn && b.isoDate(cell).Some? ==>
            var iso := b.isoDate(cell).value;
            r.Success? && r.value.Date? && r.value.day <= iso && 'T' !in r.value.day
            && (|r.value.day| == |iso| || iso[|r.value.day|] == 'T'))
      && (KindOf(property) == NumberColumn ==> r == Success(Num(b.toNumber(cell))))
      && (KindOf(property) == StringColumn ==> r == Success(Str(cell)))
  {
    match KindOf(property)
    case ArrayColumn =>
      JoinSplit(cell, ',');
      SplitCount(cell, ',');
      if ',' !in cell {
        SplitWithoutSeparator(cell, ',');
      }
    case DateColumn =>
      if b.isoDate(cell).Some? {
        SplitHead(b.isoDate(cell).value, 'T');
      }
    case NumberColumn =>
    case StringColumn =>
  }

  /** Once the fold has thrown, later columns do not matter. */
  lemma {:induction false} ReduceFailureSticks<N>(properties: seq<string>, values: seq<string>, b: Builtins<N>, i: nat, n: nat)
    requires i <= n <= |properties|
    requires Reduce(properties, values, b, i).Failure?
    ensures Reduce(properties, values, b, n) == Reduce(properties, values, b, i)
    decreases n
  {
    if i < n {
      ReduceFailureSticks(properties, values, b, i, n - 1);
    }
  }

  /** One successful step of the fold: the previous columns succeeded, and
      column `n - 1` either had an empty cell or stored its converted value. */
  lemma ReduceStep<N>(properties: seq<string>, values: seq<string>, b: Builtins<N>, n: nat)
    requires 0 < n <= |properties|
    requires Reduce(properties, values, b, n).Success?
    ensures Reduce(properties, values, b, n - 1).Success?
    ensures var cell := CellAt(values, n - 1);
      cell != "" ==> Convert(properties[n - 1], cell, b).Success?
    ensures CellAt(values, n - 1) == "" ==>
      Reduce(properties, values, b, n).value == Reduce(properties, values, b, n - 1).value
    ensures var cell := CellAt(values, n - 1);
      cell != "" ==>
        Reduce(properties, values, b, n).value ==
        Assign(Reduce(properties, values, b, n - 1).value, KeyOf(properties[n - 1]), Convert(properties[n - 1], cell, b).value)
  {
  }

  /** Storing under one key leaves every other key as it was; storing under
      any key but `__proto__` makes it hold the value. */
  lemma AssignAt<N>(obj: Record<N>, key: string, v: Value<N>, k: string)
    ensures key == k && k != ProtoKey ==> k in Assign(obj, key, v) && Assign(obj, key, v)[k] == v
    ensures key != k ==> (k in Assign(obj, key, v) <==> k in obj)
    ensures key != k && k in obj ==> Assign(obj, key, v)[k] == obj[k]
  {
  }

  /** A key is present exactly when some column with a non-empty cell maps to
      it: empty cells, cells missing from a short row and cells beyond the
      header contribute nothing. */
  lemma {:induction false} ReduceKeys<N>(properties: seq<string>, values: seq<string>, b: Builtins<N>, n: nat)
    requires n <= |properties|
    requires Reduce(properties, values, b, n).Success?
    ensures forall k :: k in Reduce(properties, values, b, n).value <==>
      exists i :: 0 <= i < n && Contributes(properties, values, i, k)
    decreases n
  {
    if n > 0 {
      ReduceStep(properties, values, b, n);
      ReduceKeys(properties, values, b, n - 1);
      var obj := Reduce(properties, values, b, n - 1).value;
      var result := Reduce(properties, values, b, n).value;
      var cell := CellAt(values, n - 1);
      forall k
        ensures k in result <==> exists i :: 0 <= i < n && Contributes(properties, values, i, k)
      {
        if cell != "" {
          AssignAt(obj, KeyOf(properties[n - 1]), Convert(properties[n - 1], cell, b).value, k);
        }
        assert k in result <==> k in obj || Contributes(properties, values, n - 1, k);
        assert k in obj <==> exists i :: 0 <= i < n - 1 && Contributes(properties, values, i, k);
        assert (exists i :: 0 <= i < n && Contributes(properties, values, i, k)) <==>
          (exists i :: 0 <= i < n - 1 && Contributes(properties, values, i, k)) || Contributes(properties, values, n - 1, k);
      }
    }
  }

  /** The value under a key comes from the last column that contributes to it:
      when two columns resolve to the same key, the later one wins. */
  lemma {:induction false} ReduceValue<N>(properties: seq<string>, values: seq<string>, b: Builtins<N>, n: nat, i: nat, k: string)
    requires i < n <= |properties|
    requires Reduce(properties, values, b, n).Success?
    requires Contributes(properties, values, i, k)
    requires forall j :: i < j < n ==> !Contributes(properties, values, j, k)
    ensures Convert(properties[i], CellAt(values, i), b).Success?
    ensures k in Reduce(properties, values, b, n).value
    ensures Reduce(properties, values, b, n).value[k] == Convert(properties[i], CellAt(values, i), b).value
    decreases n
  {
    ReduceStep(properties, values, b, n);
    var obj := Reduce(properties, values, b, n - 1).value;
    var result := Reduce(properties, values, b, n).value;
    var cell := CellAt(values, n - 1);
    if i < n - 1 {
      assert !Contributes(properties, values, n - 1, k);
      ReduceValue(properties, values, b, n - 1, i, k);
      if cell != "" {
        AssignAt(obj, KeyOf(properties[n - 1]), Convert(properties[n - 1], cell, b).value, k);
      }
    } else {
      AssignAt(obj, k, Convert(properties[i], cell, b).value, k);
    }
  }

  /** The fold throws exactly when some column holds an invalid date, and the
      exception names the first such cell. */
  lemma {:induction false} ReduceFails<N>(properties: seq<string>, values: seq<string>, b: Builtins<N>, n: nat)
    requires n <= |properties|
    ensures Reduce(properties, values, b, n).Failure? <==>
      exists i :: 0 <= i < n && BadDate(properties, values, b, i)
    ensures Reduce(properties, values, b, n).Failure? ==>
      exists i :: 0 <= i < n && BadDate(properties, values, b, i)
        && (forall j :: 0 <= j < i ==> !BadDate(properties, values, b, j))
        && Reduce(properties, values, b, n).error == InvalidDate(CellAt(values, i))
    decreases n
  {
    if n > 0 {
      ReduceFails(properties, values, b, n - 1);
      var prev := Reduce(properties, values, b, n - 1);
      if prev.Failure? {
        assert Reduce(properties, values, b, n) == prev;
      } else {
        assert forall j :: 0 <= j < n - 1 ==> !BadDate(properties, values, b, j);
        var cell := CellAt(values, n - 1);
        ConvertMeaning(properties[n - 1], cell, b);
        if BadDate(properties, values, b, n - 1) {
          assert Convert(properties[n - 1], cell, b) == Failure(InvalidDate(cell));
          assert Reduce(properties, values, b, n) == Failure(InvalidDate(cell));
        } else {
          assert Reduce(properties, values, b, n).Success?;
        }
      }
    }
  }

  /** A line whose cells are all empty gives the empty record. */
  lemma {:induction false} ReduceBlank<N>(properties: seq<string>, values: seq<string>, b: Builtins<N>, n: nat)
    requires n <= |properties|
    requires forall i :: 0 <= i < n ==> CellAt(values, i) == ""
    ensures Reduce(properties, values, b, n) == Success(map[])
    decreases n
  {
    if n > 0 {
      ReduceBlank(properties, values, b, n - 1);
    }
  }

  /** The `reduce` callback run column by column on an accumulator object
      that each step updates in place; an invalid date ends it with the
      exception. */
  method BuildRecord<N>(properties: seq<string>, values: seq<string>, b: Builtins<N>) returns (r: Result<Record<N>, Error>)
    ensures r == RecordOf(properties, values, b)
  {
    var obj: Record<N> := map[];
    var index := 0;
    while index < |properties|
      invariant index <= |properties|
      invariant Reduce(properties, values, b, index) == Success(obj)
    {
      var value := CellAt(values, index);
      if value != "" {
        var property := properties[index];
        var propertyType := KindOf(property);
        if propertyType == ArrayColumn {
          obj := Assign(obj, KeyOf(property), Arr(Split(value, ',')));
        } else if propertyType == DateColumn {
          var normalDate := b.isoDate(value);
          if normalDate.None? {
            ReduceFailureSticks(properties, values, b, index + 1, |properties|);
            return Failure(InvalidDate(value));
          }
          obj := Assign(obj, KeyOf(property), Date(Split(normalDate.value, 'T')[0]));
        } else if propertyType == NumberColumn {
          obj := Assign(obj, KeyOf(property), Num(b.toNumber(value)));
        } else {
          obj := Assign(obj, property, Str(value));
        }
      }
      index := index + 1;
    }
    r := Success(obj);
  }

  // ---------------------------------------------------------------------------
  // Lines, header and cells (main.js:29-39)

  /** `tsv.split("\n")`. */
  function Lines(tsv: string): (lines: seq<string>)
    ensures |lines| >= 1
  {
    Split(tsv, '\n')
  }

  /** The cleaned property names of the first line's tab-separated cells. */
  function Header(tsv: string): (properties: seq<string>)
    ensures |properties| == |Split(Lines(tsv)[0], '\t')|
  {
    var raw := Split(Lines(tsv)[0], '\t');
    seq(|raw|, i requires 0 <= i < |raw| => Clean(raw[i]))
  }

  /** A line's tab-separated cells, each with its first carriage return removed. */
  function Cells(line: string): (values: seq<string>)
    ensures |values| == |Split(line, '\t')|
  {
    var raw := Split(line, '\t');
    seq(|raw|, i requires 0 <= i < |raw| => ReplaceFirst(raw[i], '\r'))
  }

  /** The `map` over the first `n` data lines, in order; the first exception ends it. */
  function Rows<N>(properties: seq<string>, lines: seq<string>, b: Builtins<N>, n: nat): Result<seq<Record<N>>, Error>
    requires n <= |lines|
  {
    if n == 0 then Success([])
    else
      match Rows(properties, lines, b, n - 1)
      case Failure(e) => Failure(e)
      case Success(records) =>
        match RecordOf(properties, Cells(lines[n - 1]), b)
        case Failure(e) => Failure(e)
        case Success(record) => Success(records + [record])
  }

  /** `tsvToObjects(tsv)`: one record per line after the first. */
  function Objects<N>(tsv: string, b: Builtins<N>): Result<seq<Record<N>>, Error>
  {
    var lines := Lines(tsv);
    Rows(Header(tsv), lines[1..], b, |lines| - 1)
  }

  /** Every property name of the header holds only `[a-zA-Z0-9_-]`. */
  lemma HeaderAllowed(tsv: string)
    ensures forall i, j :: 0 <= i < |Header(tsv)| && 0 <= j < |Header(tsv)[i]| ==> IsHeaderChar(Header(tsv)[i][j])
  {
    forall i | 0 <= i < |Header(tsv)| ensures forall j :: 0 <= j < |Header(tsv)[i]| ==> IsHeaderChar(Header(tsv)[i][j]) {
      CleanAllowed(Split(Lines(tsv)[0], '\t')[i]);
    }
  }

  /** Successful rows are one record per line, in line order. */
  lemma {:induction false} RowsOnePerLine<N>(properties: seq<string>, lines: seq<string>, b: Builtins<N>, n: nat)
    requires n <= |lines|
    requires Rows(properties, lines, b, n).Success?
    ensures |Rows(properties, lines, b, n).value| == n
    ensures forall i :: 0 <= i < n ==>
      RecordOf(properties, Cells(lines[i]), b) == Success(Rows(properties, lines, b, n).value[i])
    decreases n
  {
    if n > 0 {
      RowsOnePerLine(properties, lines, b, n - 1);
    }
  }

  /** The map throws exactly when some line's record throws, and with the
      first such line's exception. */
  lemma {:induction false} RowsFail<N>(properties: seq<string>, lines: seq<string>, b: Builtins<N>, n: nat)
    requires n <= |lines|
    ensures Rows(properties, lines, b, n).Failure? <==>
      exists i :: 0 <= i < n && RecordOf(properties, Cells(lines[i]), b).Failure?
    ensures Rows(properties, lines, b, n).Failure? ==>
      exists i :: 0 <= i < n && RecordOf(properties, Cells(lines[i]), b).Failure?
        && (forall j :: 0 <= j < i ==> RecordOf(properties, Cells(lines[j]), b).Success?)
        && Rows(properties, lines, b, n).error == RecordOf(properties, Cells(lines[i]), b).error
    decreases n
  {
    if n > 0 {
      RowsFail(properties, lines, b, n - 1);
      var last := RecordOf(properties, Cells(lines[n - 1]), b);
      var prev := Rows(properties, lines, b, n - 1);
      if prev.Success? {
        assert forall j :: 0 <= j < n - 1 ==> RecordOf(properties, Cells(lines[j]), b).Success?;
        if last.Failure? {
          assert Rows(properties, lines, b, n) == Failure(last.error);
        } else {
          assert Rows(properties, lines, b, n).Success?;
        }
      } else {
        assert Rows(properties, lines, b, n) == prev;
      }
    }
  }

  /** The result has one record per newline of the input, the i-th built
      from line i + 1; the call fails exactly when one of those lines holds
      an invalid date. */
  lemma ObjectsOnePerLine<N>(tsv: string, b: Builtins<N>)
    ensures var lines := Lines(tsv); var r := Objects(tsv, b);
      && (r.Failure? <==> exists i :: 1 <= i < |lines| && RecordOf(Header(tsv), Cells(lines[i]), b).Failure?)
      && (r.Success? ==>
            && |r.value| == |lines| - 1 == Count(tsv, '\n')
            && forall i :: 0 <= i < |r.value| ==> RecordOf(Header(tsv), Cells(lines[i + 1]), b) == Success(r.value[i]))
  {
    var lines, properties := Lines(tsv), Header(tsv);
    var rest := lines[1..];
    var r := Objects(tsv, b);
    assert r == Rows(properties, rest, b, |rest|);
    SplitCount(tsv, '\n');
    RowsFail(properties, rest, b, |rest|);
    if r.Success? {
      RowsOnePerLine(properties, rest, b, |rest|);
      forall i | 0 <= i < |r.value|
        ensures RecordOf(properties, Cells(lines[i + 1]), b) == Success(r.value[i])
      {
        assert rest[i] == lines[i + 1];
      }
    } else {
      var i :| 0 <= i < |rest| && RecordOf(properties, Cells(rest[i]), b).Failure?;
      assert rest[i] == lines[i + 1];
    }
    if exists i :: 1 <= i < |lines| && RecordOf(properties, Cells(lines[i]), b).Failure? {
      var i :| 1 <= i < |lines| && RecordOf(properties, Cells(lines[i]), b).Failure?;
      assert rest[i - 1] == lines[i];
    }
  }

  /** The whole call throws exactly when some data line holds, in a date
      column of the header, a non-empty cell the date parser rejects. */
  lemma ObjectsFail<N>(tsv: string, b: Builtins<N>)
    ensures var lines, properties := Lines(tsv), Header(tsv);
      Objects(tsv, b).Failure? <==>
        exists i, j :: 1 <= i < |lines| && 0 <= j < |properties| && BadDate(properties, Cells(lines[i]), b, j)
  {
    var lines, properties := Lines(tsv), Header(tsv);
    ObjectsOnePerLine(tsv, b);
    forall i | 1 <= i < |lines|
      ensures RecordOf(properties, Cells(lines[i]), b).Failure? <==>
        exists j :: 0 <= j < |properties| && BadDate(properties, Cells(lines[i]), b, j)
    {
      ReduceFails(properties, Cells(lines[i]), b, |properties|);
    }
  }

  /** A trailing newline yields a final record with no keys. */
  lemma TrailingNewline<N>(text: string, b: Builtins<N>)
    requires Objects(text + "\n", b).Success?
    ensures var records := Objects(text + "\n", b).value;
      |records| >= 1 && records[|records| - 1] == map[]
  {
    var tsv := text + "\n";
    var lines := Lines(tsv);
    SplitTrailing(text, '\n');
    ObjectsOnePerLine(tsv, b);
    assert Cells("") == [""];
    ReduceBlank(Header(tsv), [""], b, |Header(tsv)|);
    assert RecordOf(Header(tsv), Cells(lines[|lines| - 1]), b) == Success(map[]);
  }

  /** `tsvToObjects`: the header is cleaned, and the lines after the first
      are turned into records by `BuildRecords`. */
  method TsvToObjects<N>(tsv: string, b: Builtins<N>) returns (r: Result<seq<Record<N>>, Error>)
    ensures r == Objects(tsv, b)
  {
    var lines := Lines(tsv);
    var properties := Header(tsv);
    r := BuildRecords(properties, lines[1..], b);
  }

  /** `lines.slice(1).map(..)`: every line is split into cells and folded into
      a record by `BuildRecord`, line by line; the first exception ends it. */
  method BuildRecords<N>(properties: seq<string>, lines: seq<string>, b: Builtins<N>) returns (r: Result<seq<Record<N>>, Error>)
    ensures r == Rows(properties, lines, b, |lines|)
  {
    var objects: seq<Record<N>> := [];
    var i := 0;
    while i < |lines|
      invariant i <= |lines|
      invariant Rows(properties, lines, b, i) == Success(objects)
    {
      var values := Cells(lines[i]);
      var built := BuildRecord(properties, values, b);
      if built.Failure? {
        RowsStopAt(properties, lines, b, i, objects);
        return Failure(built.error);
      }
      RowsStep(properties, lines, b, i, objects);
      objects := objects + [built.value];
      i := i + 1;
    }
    r := Success(objects);
  }

  /** One more line: its record is appended, or its exception ends the map. */
  lemma RowsStep<N>(properties: seq<string>, lines: seq<string>, b: Builtins<N>, n: nat, records: seq<Record<N>>)
    requires n < |lines|
    requires Rows(properties, lines, b, n) == Success(records)
    ensures var record := RecordOf(properties, Cells(lines[n]), b);
      record.Failure? ==> Rows(properties, lines, b, n + 1) == Failure(record.error)
    ensures var record := RecordOf(properties, Cells(lines[n]), b);
      record.Success? ==> Rows(properties, lines, b, n + 1) == Success(records + [record.value])
  {
  }

  /** A line whose record throws ends the map with that exception. */
  lemma RowsStopAt<N>(properties: seq<string>, lines: seq<string>, b: Builtins<N>, n: nat, records: seq<Record<N>>)
    requires n < |lines|
    requires Rows(properties, lines, b, n) == Success(records)
    requires RecordOf(properties, Cells(lines[n]), b).Failure?
    ensures Rows(properties, lines, b, |lines|) == Failure(RecordOf(properties, Cells(lines[n]), b).error)
  {
    RowsStep(properties, lines, b, n, records);
    RowsFailureSticks(properties, lines, b, n + 1, |lines|);
  }

  /** Once the map has thrown, later lines do not matter. */
  lemma {:induction false} RowsFailureSticks<N>(properties: seq<string>, lines: seq<string>, b: Builtins<N>, i: nat, n: nat)
    requires i <= n <= |lines|
    requires Rows(properties, lines, b, i).Failure?
    ensures Rows(properties, lines, b, n) == Rows(properties, lines, b, i)
    decreases n
  {
    if i < n {
      RowsFailureSticks(properties, lines, b, i, n - 1);
    }
  }
}
