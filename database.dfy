/** The database viewer: CSV export of a table, the name shown for a
    complex's donor and acceptor, and the complexes table, which sorts the
    page's complex array in place by descending EFI score. */
module Database {
  import opened SeqUtil
  import opened Chem
  import Selector

  // ---------------------------------------------------------------------------
  // CSV export: a header line of the first row's keys, then one quoted
  // record per row.

  /** A field value as the export sees it: a primitive, whose template
      string `${value}` is `text`; an object (null included), whose
      `JSON.stringify` is `json`; or a key the row does not have. */
  datatype Value = Primitive(text: string) | Object(json: string) | Missing

  /** A row: its own keys, in `Object.keys` order, with their values. */
  type Row = seq<(string, Value)>

  /** `Object.keys(row)`. */
  function Keys(row: Row): (ks: seq<string>)
    ensures |ks| == |row|
    ensures forall i :: 0 <= i < |row| ==> ks[i] == row[i].0
  {
    seq(|row|, i requires 0 <= i < |row| => row[i].0)
  }

  /** `row[key]`: the value under `key`, or `undefined` when the row lacks it. */
  function Lookup(row: Row, key: string): (v: Value)
    ensures (forall i :: 0 <= i < |row| ==> row[i].0 != key) ==> v == Missing
    ensures forall i :: 0 <= i < |row| && row[i].0 == key && (forall j :: 0 <= j < i ==> row[j].0 != key) ==> v == row[i].1
  {
    match First(row, KeyIs(key))
    case None => Missing
    case Some(entry) => entry.1
  }

  function KeyIs(key: string): ((string, Value)) -> bool {
    (entry: (string, Value)) => entry.0 == key
  }

  /** `s.replace(/"/g, '""')`. */
  function DoubleQuotes(s: string): (r: string)
    ensures '"' !in s ==> r == s
  {
    if s == [] then []
    else (if s[0] == '"' then "\"\"" else [s[0]]) + DoubleQuotes(s[1..])
  }

  /** Doubling quotes adds no character other than the quote. */
  lemma {:induction false} DoubleQuotesAvoids(s: string, c: char)
    requires c != '"' && c !in s
    ensures c !in DoubleQuotes(s)
    decreases |s|
  {
    if s != [] {
      DoubleQuotesAvoids(s[1..], c);
    }
  }

  /** What a field says once read back: the primitive's text, the object's
      JSON, or "undefined". */
  function Text(v: Value): string {
    match v
    case Primitive(t) => t
    case Object(j) => j
    case Missing => "undefined"
  }

  /** A field of a record: every field is wrapped in double quotes, and only an
      object's JSON has its quotes doubled. A field whose value reads back
      is its text quoted as section 2 of RFC 4180 asks. */
  function Field(v: Value): (f: string)
    ensures |f| >= 2 && f[0] == '"' && f[|f| - 1] == '"'
    ensures ReadsBack(v) ==> f == Quoted(Text(v))
    ensures v.Primitive? ==> f == "\"" + v.text + "\""
  {
    match v
    case Primitive(t) => "\"" + t + "\""
    case Object(j) => "\"" + DoubleQuotes(j) + "\""
    case Missing => "\"undefined\""
  }

  function Fields(headers: seq<string>, row: Row): seq<string> {
    seq(|headers|, i requires 0 <= i < |headers| => Field(Lookup(row, headers[i])))
  }

  /** One data record: the row's values under the given headers, joined by ",". */
  function Record(headers: seq<string>, row: Row): (r: string)
    ensures headers == [] ==> r == ""
    ensures headers != [] ==> |r| >= 2 && r[0] == '"' && r[|r| - 1] == '"'
  {
    var fs := Fields(headers, row);
    if fs != [] then
      JoinWithEnds(fs, ',');
      JoinWith(fs, ',')
    else JoinWith(fs, ',')
  }

  /** The records of the export: the header line (the keys of the first row)
      and then one record per row, each looked up by those same keys. */
  function Records(data: seq<Row>): (rs: seq<string>)
    requires data != []
    ensures |rs| == |data| + 1
    ensures rs[0] == JoinWith(Keys(data[0]), ',')
    ensures forall i :: 0 <= i < |data| ==> rs[i + 1] == Record(Keys(data[0]), data[i])
  {
    var headers := Keys(data[0]);
    [JoinWith(headers, ',')] + seq(|data|, i requires 0 <= i < |data| => Record(headers, data[i]))
  }

  /** The text `exportToCSV` downloads, or nothing for an empty table. */
  function ExportCsv(data: seq<Row>): (r: Option<string>)
    ensures r.None? <==> data == []
    ensures r.Some? ==> r.value == JoinWith(Records(data), '\n')
  {
    if data == [] then None
    else Some(JoinWith(Records(data), '\n'))
  }

  // ---------------------------------------------------------------------------
  // Reading an export's data records back, as a reader of the all-quoted
  // subset of section 2 of RFC 4180: every field in double quotes, a doubled
  // quote inside standing for one, no line break inside a field.

  /** Reads the inside of a quoted field (its opening quote already
      consumed): the unescaped text and what follows the closing quote. */
  function ReadQuoted(s: string): (r: Option<(string, string)>)
    ensures r.Some? ==> |r.value.1| < |s|
    decreases |s|
  {
    if s == [] then None
    else if s[0] == '"' then
      if |s| >= 2 && s[1] == '"' then
        match ReadQuoted(s[2..])
        case None => None
        case Some((t, rest)) => Some(("\"" + t, rest))
      else Some(("", s[1..]))
    else
      match ReadQuoted(s[1..])
      case None => None
      case Some((t, rest)) => Some(([s[0]] + t, rest))
  }

  /** Reads one or more quoted fields separated by ",". */
  function ReadFields(s: string): Option<seq<string>>
    decreases |s|
  {
    if s == [] || s[0] != '"' then None
    else
      match ReadQuoted(s[1..])
      case None => None
      case Some((t, rest)) =>
        if rest == [] then Some([t])
        else if rest[0] != ',' then None
        else
          match ReadFields(rest[1..])
          case None => None
          case Some(ts) => Some([t] + ts)
  }

  /** Reads a record: the empty line has no fields. */
  function ParseRecord(line: string): Option<seq<string>> {
    if line == [] then Some([]) else ReadFields(line)
  }

  lemma {:induction false} ReadQuotedEscaped(t: string, rest: string)
    requires rest == [] || rest[0] != '"'
    ensures ReadQuoted(DoubleQuotes(t) + "\"" + rest) == Some((t, rest))
    decreases |t|
  {
    var s := DoubleQuotes(t) + "\"" + rest;
    if t == [] {
      assert s == "\"" + rest;
      assert s[1..] == rest;
    } else if t[0] == '"' {
      assert s == "\"\"" + (DoubleQuotes(t[1..]) + "\"" + rest);
      assert s[2..] == DoubleQuotes(t[1..]) + "\"" + rest;
      ReadQuotedEscaped(t[1..], rest);
      assert "\"" + t[1..] == t;
    } else {
      assert s == [t[0]] + (DoubleQuotes(t[1..]) + "\"" + rest);
      assert s[1..] == DoubleQuotes(t[1..]) + "\"" + rest;
      ReadQuotedEscaped(t[1..], rest);
      assert [t[0]] + t[1..] == t;
    }
  }

  function Quoted(t: string): string {
    "\"" + DoubleQuotes(t) + "\""
  }

  /** Quoting every text with doubled inner quotes and joining with ","
      is read back as exactly those texts. */
  lemma {:induction false} ReadFieldsQuoted(texts: seq<string>)
    requires |texts| >= 1
    ensures ReadFields(JoinWith(seq(|texts|, i requires 0 <= i < |texts| => Quoted(texts[i])), ',')) == Some(texts)
    decreases |texts|
  {
    var fs := seq(|texts|, i requires 0 <= i < |texts| => Quoted(texts[i]));
    var s := JoinWith(fs, ',');
    if |texts| == 1 {
      assert s == fs[0] == "\"" + (DoubleQuotes(texts[0]) + "\"" + "");
      ReadQuotedEscaped(texts[0], "");
      assert s[1..] == DoubleQuotes(texts[0]) + "\"" + "";
      assert texts == [texts[0]];
    } else {
      var tail := seq(|texts| - 1, i requires 0 <= i < |texts| - 1 => Quoted(texts[1..][i]));
      assert fs[1..] == tail;
      var rest := "," + JoinWith(tail, ',');
      assert s == "\"" + (DoubleQuotes(texts[0]) + "\"" + rest);
      assert s[1..] == DoubleQuotes(texts[0]) + "\"" + rest;
      ReadQuotedEscaped(texts[0], rest);
      ReadFieldsQuoted(texts[1..]);
      assert rest[1..] == JoinWith(tail, ',');
      assert [texts[0]] + texts[1..] == texts;
    }
  }

  /** A field is read back faithfully unless it is a primitive holding a
      double quote, which the export does not escape. */
  predicate ReadsBack(v: Value) {
    v.Primitive? ==> '"' !in v.text
  }

  function Texts(headers: seq<string>, row: Row): seq<string> {
    seq(|headers|, i requires 0 <= i < |headers| => Text(Lookup(row, headers[i])))
  }

  /** Every data record has exactly one field per header, and each field
      reads back as the row's value under that header. */
  lemma RecordRoundTrip(headers: seq<string>, row: Row)
    requires forall j :: 0 <= j < |headers| ==> ReadsBack(Lookup(row, headers[j]))
    ensures ParseRecord(Record(headers, row)) == Some(Texts(headers, row))
    ensures |Texts(headers, row)| == |headers|
  {
    var texts := Texts(headers, row);
    if |headers| > 0 {
      forall j | 0 <= j < |headers|
        ensures Fields(headers, row)[j] == Quoted(texts[j])
      {
      }
      assert Fields(headers, row) == seq(|texts|, i requires 0 <= i < |texts| => Quoted(texts[i]));
      ReadFieldsQuoted(texts);
      assert Record(headers, row) != [];
    }
  }

  /** The export does not escape a primitive holding a quote: the record
      `"a"b"` made from the text a"b cannot be read back at all. (A text
      such as a""b is read back instead as a different text; see
      `UnescapedQuotesMisread`.) */
  lemma UnescapedQuoteUnreadable()
    ensures Record(["k"], [("k", Primitive("a\"b"))]) == "\"a\"b\""
    ensures ParseRecord(Record(["k"], [("k", Primitive("a\"b"))])) == None
  {
    var row: Row := [("k", Primitive("a\"b"))];
    assert Lookup(row, "k") == Primitive("a\"b");
    assert "\"" + "a\"b" + "\"" == "\"a\"b\"";
    assert Fields(["k"], row)[0] == "\"a\"b\"";
    assert Fields(["k"], row) == ["\"a\"b\""];
    var s := "\"a\"b\"";
    assert s[1..] == "a\"b\"";
    assert "a\"b\""[1..] == "\"b\"";
    assert "\"b\""[1..] == "b\"";
    assert ReadQuoted("\"b\"") == Some(("", "b\""));
    assert ['a'] + "" == "a";
    assert ReadQuoted("a\"b\"") == Some(("a", "b\""));
  }

  /** The other half of the missing escape: the record `"a""b"` made from
      the text a""b parses without error, but as the text a"b. */
  lemma UnescapedQuotesMisread()
    ensures Record(["k"], [("k", Primitive("a\"\"b"))]) == "\"a\"\"b\""
    ensures ParseRecord(Record(["k"], [("k", Primitive("a\"\"b"))])) == Some(["a\"b"])
  {
    var row: Row := [("k", Primitive("a\"\"b"))];
    assert Lookup(row, "k") == Primitive("a\"\"b");
    assert "\"" + "a\"\"b" + "\"" == "\"a\"\"b\"";
    assert Fields(["k"], row)[0] == "\"a\"\"b\"";
    assert Fields(["k"], row) == ["\"a\"\"b\""];
    ReadQuotedEscaped("a\"b", "");
    assert DoubleQuotes("a\"b") == "a\"\"b";
    assert "\"a\"\"b\""[1..] == DoubleQuotes("a\"b") + "\"" + "";
  }

  /** A field holds a character other than the double quote only if its text does. */
  lemma FieldAvoids(v: Value, c: char)
    requires c != '"' && c !in Text(v)
    ensures c !in Field(v)
  {
    DoubleQuotesAvoids(Text(v), c);
  }

  /** The export is read without ambiguity when no header holds a line break
      or a comma and every looked-up value reads back and holds no line break. */
  ghost predicate Unambiguous(data: seq<Row>)
    requires data != []
  {
    var headers := Keys(data[0]);
    && (forall j :: 0 <= j < |headers| ==> '\n' !in headers[j] && ',' !in headers[j])
    && (forall i, j :: 0 <= i < |data| && 0 <= j < |headers| ==>
          ReadsBack(Lookup(data[i], headers[j])) && '\n' !in Text(Lookup(data[i], headers[j])))
  }

  /** Reading the export back: its lines are the header and one record per
      row in order; the header splits into the first row's keys; record
      i + 1 holds, field by field, the values of row i under those keys. */
  lemma ExportRoundTrip(data: seq<Row>)
    requires data != [] && Unambiguous(data)
    ensures Split(ExportCsv(data).value, '\n') == Records(data)
    ensures |Keys(data[0])| >= 1 ==> Split(Records(data)[0], ',') == Keys(data[0])
    ensures forall i :: 0 <= i < |data| ==>
      ParseRecord(Records(data)[i + 1]) == Some(Texts(Keys(data[0]), data[i]))
  {
    var headers := Keys(data[0]);
    var rs := Records(data);
    JoinWithAvoids(headers, ',', '\n');
    forall i | 0 <= i < |data|
      ensures '\n' !in rs[i + 1]
      ensures ParseRecord(rs[i + 1]) == Some(Texts(headers, data[i]))
    {
      forall j | 0 <= j < |headers| ensures '\n' !in Fields(headers, data[i])[j] {
        FieldAvoids(Lookup(data[i], headers[j]), '\n');
      }
      JoinWithAvoids(Fields(headers, data[i]), ',', '\n');
      RecordRoundTrip(headers, data[i]);
    }
    assert forall k :: 0 <= k < |rs| ==> '\n' !in rs[k] by {
      forall k | 0 <= k < |rs| ensures '\n' !in rs[k] {
        if k > 0 {
          assert '\n' !in rs[(k - 1) + 1];
        }
      }
    }
    SplitJoin(rs, '\n');
    if |headers| >= 1 {
      SplitJoin(headers, ',');
    }
  }

  /** The first line of a non-empty export is the header, whatever the
      records hold: the first line break comes after it. */
  lemma ExportHeader(data: seq<Row>)
    requires data != []
    requires forall j :: 0 <= j < |Keys(data[0])| ==> '\n' !in Keys(data[0])[j]
    ensures Split(ExportCsv(data).value, '\n')[0] == JoinWith(Keys(data[0]), ',')
  {
    JoinWithAvoids(Keys(data[0]), ',', '\n');
    SplitJoinFirst(Records(data), '\n');
  }

  // ---------------------------------------------------------------------------
  // Names of a complex's donor and acceptor, as the complexes export and
  // the complexes table show them.

  /** `list.find(h => h.id === id)?.name || id`: the first matching
      molecule's name, or the id itself when nothing matches or the name is empty. */
  function DisplayName(list: seq<Molecule>, id: string): (r: string)
    ensures Find(list, id).None? ==> r == id
    ensures Find(list, id).Some? ==> r == if Find(list, id).value.name != "" then Find(list, id).value.name else id
    ensures r == id || exists i :: 0 <= i < |list| && list[i].id == id && list[i].name == r
    ensures r == "" ==> id == ""
  {
    match Find(list, id)
    case None => id
    case Some(m) => if m.name != "" then m.name else id
  }

  /** For lists made by the selector's transform, the name shown for a known
      key is the key with spaces for underscores. Duplicate keys do not
      matter: every molecule made from a key carries that key's name. */
  lemma DisplayNameOfTransformed(entries: seq<(string, Selector.RawMolecule)>, k: nat)
    requires k < |entries|
    ensures DisplayName(Selector.ToMolecules(entries), entries[k].0) == Selector.ReplaceUnderscores(entries[k].0)
  {
    assert Selector.ToMolecules(entries)[k].id == entries[k].0;
  }

  /** The keys of an exported complex: its own fields in declaration order,
      then the two names. */
  const ComplexExportKeys := ["hbd_id", "hba_id", "ratio", "efi_score", "interaction_energy",
                              "complex_descriptors", "hbd_name", "hba_name"]

  /** A row of the complexes export: the complex's fields with `hbd_name` and `hba_name`
      added. `num` is JavaScript's number-to-string conversion and `json`
      is `JSON.stringify` of the descriptors, both taken as given. */
  function ComplexRow(c: Complex, hbds: seq<Molecule>, hbas: seq<Molecule>,
                      num: real -> string, json: ComplexDescriptors -> string): (row: Row)
    ensures Keys(row) == ComplexExportKeys
    ensures DistinctKeys(row)
  {
    [("hbd_id", Primitive(c.hbdId)), ("hba_id", Primitive(c.hbaId)), ("ratio", Primitive(c.ratio)),
     ("efi_score", Primitive(num(c.efiScore))), ("interaction_energy", Primitive(num(c.interactionEnergy))),
     ("complex_descriptors", Object(json(c.complexDescriptors))),
     ("hbd_name", Primitive(DisplayName(hbds, c.hbdId))), ("hba_name", Primitive(DisplayName(hbas, c.hbaId)))]
  }

  /** In a row whose keys are distinct, each key looks up its own value. */
  lemma LookupOwnKey(row: Row, j: nat)
    requires DistinctKeys(row) && j < |row|
    ensures Lookup(row, row[j].0) == row[j].1
  {
  }

  /** An exported complex keeps every field of the complex and adds the
      display names of its donor and acceptor. */
  lemma ComplexRowFields(c: Complex, hbds: seq<Molecule>, hbas: seq<Molecule>,
                         num: real -> string, json: ComplexDescriptors -> string)
    ensures var row := ComplexRow(c, hbds, hbas, num, json);
      && Lookup(row, "hbd_id") == Primitive(c.hbdId) && Lookup(row, "hba_id") == Primitive(c.hbaId)
      && Lookup(row, "ratio") == Primitive(c.ratio)
      && Lookup(row, "efi_score") == Primitive(num(c.efiScore))
      && Lookup(row, "interaction_energy") == Primitive(num(c.interactionEnergy))
      && Lookup(row, "complex_descriptors") == Object(json(c.complexDescriptors))
      && Lookup(row, "hbd_name") == Primitive(DisplayName(hbds, c.hbdId))
      && Lookup(row, "hba_name") == Primitive(DisplayName(hbas, c.hbaId))
  {
    var row := ComplexRow(c, hbds, hbas, num, json);
    LookupOwnKey(row, 0);
    LookupOwnKey(row, 1);
    LookupOwnKey(row, 2);
    LookupOwnKey(row, 3);
    LookupOwnKey(row, 4);
    LookupOwnKey(row, 5);
    LookupOwnKey(row, 6);
    LookupOwnKey(row, 7);
  }

  /** A molecule as the donor and acceptor exports see it: its fields in
      declaration order, the descriptors as an object. */
  function MoleculeRow(m: Molecule, num: real -> string, json: Descriptors -> string): (row: Row)
    ensures Keys(row) == ["id", "name", "formula", "mw", "descriptors"]
    ensures DistinctKeys(row)
  {
    [("id", Primitive(m.id)), ("name", Primitive(m.name)), ("formula", Primitive(m.formula)),
     ("mw", Primitive(num(m.mw))), ("descriptors", Object(json(m.descriptors)))]
  }

  /** An exported molecule keeps each of its fields under its own name. */
  lemma MoleculeRowFields(m: Molecule, num: real -> string, json: Descriptors -> string)
    ensures var row := MoleculeRow(m, num, json);
      && Lookup(row, "id") == Primitive(m.id) && Lookup(row, "name") == Primitive(m.name)
      && Lookup(row, "formula") == Primitive(m.formula) && Lookup(row, "mw") == Primitive(num(m.mw))
      && Lookup(row, "descriptors") == Object(json(m.descriptors))
  {
    var row := MoleculeRow(m, num, json);
    LookupOwnKey(row, 0);
    LookupOwnKey(row, 1);
    LookupOwnKey(row, 2);
    LookupOwnKey(row, 3);
    LookupOwnKey(row, 4);
  }

  function MoleculeRows(ms: seq<Molecule>, num: real -> string, json: Descriptors -> string): seq<Row> {
    seq(|ms|, i requires 0 <= i < |ms| => MoleculeRow(ms[i], num, json))
  }

  function ComplexRows(cs: seq<Complex>, hbds: seq<Molecule>, hbas: seq<Molecule>,
                       num: real -> string, json: ComplexDescriptors -> string): seq<Row> {
    seq(|cs|, i requires 0 <= i < |cs| => ComplexRow(cs[i], hbds, hbas, num, json))
  }

  /** The complexes export starts with a header line joining the eight
      fixed names, and then has one record per complex, in the order
      of the array. */
  lemma ComplexExportShape(cs: seq<Complex>, hbds: seq<Molecule>, hbas: seq<Molecule>,
                           num: real -> string, json: ComplexDescriptors -> string)
    requires cs != []
    ensures var rs := Records(ComplexRows(cs, hbds, hbas, num, json));
      && rs[0] == JoinWith(ComplexExportKeys, ',')
      && |rs| == |cs| + 1
      && forall i :: 0 <= i < |cs| ==> rs[i + 1] == Record(ComplexExportKeys, ComplexRow(cs[i], hbds, hbas, num, json))
  {
    var rows := ComplexRows(cs, hbds, hbas, num, json);
    var rs := Records(rows);
    assert Keys(rows[0]) == ComplexExportKeys;
    forall i | 0 <= i < |cs|
      ensures rs[i + 1] == Record(ComplexExportKeys, ComplexRow(cs[i], hbds, hbas, num, json))
    {
      assert rows[i] == ComplexRow(cs[i], hbds, hbas, num, json);
    }
  }

  /** No key of an exported complex holds a comma, so its header line splits back into the keys. */
  lemma ComplexHeaderSplits()
    ensures Split(JoinWith(ComplexExportKeys, ','), ',') == ComplexExportKeys
  {
    assert forall i :: 0 <= i < |ComplexExportKeys| ==> ',' !in ComplexExportKeys[i];
    SplitJoin(ComplexExportKeys, ',');
  }

  // ---------------------------------------------------------------------------
  // The complexes table, sorted in place when it is rendered.

  /** `a.sort((x, y) => y.efi_score - x.efi_score)`: a stable in-place sort
      into non-increasing score order, here by insertion. */
  method SortByEfiInPlace(a: array<Complex>)
    modifies a
    ensures a[..] == SortByEfi(old(a[..]))
  {
    ghost var s := a[..];
    var i := 0;
    while i < a.Length
      invariant 0 <= i <= a.Length
      invariant a[..i] == SortByEfi(s[..i])
      invariant a[i..] == s[i..]
    {
      InsertInPlace(a, i);
      assert s[..i + 1][..i] == s[..i];
      assert s[i..][0] == s[i] && s[i..][1..] == s[i + 1..];
      i := i + 1;
    }
    assert a[..] == a[..a.Length] && s == s[..a.Length];
  }

  /** Moves `a[i]` left into the sorted prefix `a[..i]`, shifting the
      lower-scoring elements behind it one place right. */
  method InsertInPlace(a: array<Complex>, i: nat)
    requires i < a.Length
    modifies a
    ensures a[..i + 1] == Insert(old(a[..i]), old(a[i]))
    ensures a[i + 1..] == old(a[i + 1..])
  {
    ghost var t := a[..i];
    var x := a[i];
    var j := i;
    while j > 0 && a[j - 1].efiScore < x.efiScore
      invariant 0 <= j <= i
      invariant forall k :: 0 <= k < j ==> a[k] == t[k]
      invariant forall k :: j < k <= i ==> a[k] == t[k - 1]
      invariant forall k :: j <= k < i ==> t[k].efiScore < x.efiScore
      invariant a[i + 1..] == old(a[i + 1..])
    {
      a[j] := a[j - 1];
      j := j - 1;
    }
    a[j] := x;
    InsertAt(t, x, j);
    PlacedAt(a[..i + 1], t, x, j);
  }

  /** A sequence that agrees with `t` before `j`, holds `x` at `j` and
      agrees with `t` shifted by one after `j` is `t` with `x` put at `j`. */
  lemma PlacedAt(p: seq<Complex>, t: seq<Complex>, x: Complex, j: nat)
    requires j <= |t| && |p| == |t| + 1
    requires forall k :: 0 <= k < j ==> p[k] == t[k]
    requires p[j] == x
    requires forall k :: j < k < |p| ==> p[k] == t[k - 1]
    ensures p == t[..j] + [x] + t[j..]
  {
  }

  class DatabaseViewer {
    var hbdList: seq<Molecule>
    var hbaList: seq<Molecule>
    /** The page's complexes state, which rendering the table sorts in place. */
    const complexes: array<Complex>

    constructor (hbds: seq<Molecule>, hbas: seq<Molecule>, cs: seq<Complex>)
      ensures hbdList == hbds && hbaList == hbas
      ensures fresh(complexes) && complexes[..] == cs
    {
      hbdList, hbaList := hbds, hbas;
      complexes := new Complex[|cs|](i requires 0 <= i < |cs| => cs[i]);
    }

    /** Rendering the complexes table: the array is sorted in place, and each
        row shows the donor's and the acceptor's display names. */
    method ComplexTableRows() returns (cells: seq<(string, string)>)
      modifies complexes
      ensures complexes[..] == SortByEfi(old(complexes[..]))
      ensures |cells| == complexes.Length
      ensures forall i :: 0 <= i < |cells| ==>
        cells[i] == (DisplayName(hbdList, complexes[i].hbdId), DisplayName(hbaList, complexes[i].hbaId))
    {
      SortByEfiInPlace(complexes);
      var hbds, hbas, a := hbdList, hbaList, complexes;
      cells := seq(a.Length, i requires 0 <= i < a.Length reads a =>
        (DisplayName(hbds, a[i].hbdId), DisplayName(hbas, a[i].hbaId)));
    }

    /** The donors' export button: nothing for an empty list, else one
        record per donor under the molecule keys. */
    method ExportHbds(num: real -> string, json: Descriptors -> string) returns (csv: Option<string>)
      ensures csv.None? <==> hbdList == []
      ensures csv == ExportCsv(MoleculeRows(hbdList, num, json))
    {
      var rows := MoleculeRows(hbdList, num, json);
      csv := ExportCsv(rows);
    }

    /** The acceptors' export button, mirroring ExportHbds. */
    method ExportHbas(num: real -> string, json: Descriptors -> string) returns (csv: Option<string>)
      ensures csv.None? <==> hbaList == []
      ensures csv == ExportCsv(MoleculeRows(hbaList, num, json))
    {
      var rows := MoleculeRows(hbaList, num, json);
      csv := ExportCsv(rows);
    }

    /** The complexes' export button. It reads the array as it stands, so
        once the table has been rendered the records follow the sorted order. */
    method ExportComplexes(num: real -> string, json: ComplexDescriptors -> string) returns (csv: Option<string>)
      ensures csv.None? <==> complexes.Length == 0
      ensures csv == ExportCsv(ComplexRows(complexes[..], hbdList, hbaList, num, json))
    {
      var rows := ComplexRows(complexes[..], hbdList, hbaList, num, json);
      csv := ExportCsv(rows);
    }
  }
}
