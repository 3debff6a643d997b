/**
 * The KEN_ALL.CSV reader of the Japan postal-code import: a line is split on
 * the commas outside double quotes (the quotes themselves are dropped), each
 * field is trimmed, and a line with at least 15 fields becomes a record. A
 * file is read line by line, skipping blank lines and lines that give no
 * record or an empty postal code.
 */
module KenAll {
  import opened Schema

  /** The code points that JavaScript's `String.prototype.trim` removes. */
  predicate IsSpace(c: char) {
    || c == '\t' || c == '\n' || c == '\U{000B}' || c == '\U{000C}' || c == '\r' || c == ' '
    || c == '\U{00A0}' || c == '\U{1680}' || ('\U{2000}' <= c <= '\U{200A}')
    || c == '\U{2028}' || c == '\U{2029}' || c == '\U{202F}' || c == '\U{205F}'
    || c == '\U{3000}' || c == '\U{FEFF}'
  }

  /** `s` without its leading white space. */
  function TrimStart(s: string): (r: string)
    ensures |r| <= |s|
  {
    if s != [] && IsSpace(s[0]) then TrimStart(s[1..]) else s
  }

  /** `s` without its trailing white space. */
  function TrimEnd(s: string): (r: string)
    ensures |r| <= |s|
  {
    if s != [] && IsSpace(s[|s| - 1]) then TrimEnd(s[..|s| - 1]) else s
  }

  /** `s.trim()`. */
  function Trim(s: string): (r: string)
    ensures |r| <= |s|
  {
    TrimEnd(TrimStart(s))
  }

  /** Trimming the start drops exactly the leading white space. */
  lemma {:induction false} TrimStartSpec(s: string)
    ensures var r := TrimStart(s);
      && r == s[|s| - |r|..]
      && (forall k | 0 <= k < |s| - |r| :: IsSpace(s[k]))
      && (r != [] ==> !IsSpace(r[0]))
  {
    if s != [] && IsSpace(s[0]) {
      TrimStartSpec(s[1..]);
    }
  }

  /** Trimming the end drops exactly the trailing white space. */
  lemma {:induction false} TrimEndSpec(s: string)
    ensures var r := TrimEnd(s);
      && r == s[..|r|]
      && (forall k | |r| <= k < |s| :: IsSpace(s[k]))
      && (r != [] ==> !IsSpace(r[|r| - 1]))
  {
    if s != [] && IsSpace(s[|s| - 1]) {
      TrimEndSpec(s[..|s| - 1]);
    }
  }

  /**
   * `s.trim()` is the slice of `s` between its leading and its trailing
   * white space; it starts and ends with other characters, and it is empty
   * exactly when `s` is all white space.
   */
  lemma TrimSpec(s: string)
    ensures var r := Trim(s);
      var a := |s| - |TrimStart(s)|;
      && a + |r| <= |s| && r == s[a..a + |r|]
      && (forall k | 0 <= k < a :: IsSpace(s[k]))
      && (forall k | a + |r| <= k < |s| :: IsSpace(s[k]))
      && (r != [] ==> !IsSpace(r[0]) && !IsSpace(r[|r| - 1]))
      && (r == [] <==> forall k | 0 <= k < |s| :: IsSpace(s[k]))
  {
    var t := TrimStart(s);
    TrimStartSpec(s);
    TrimEndSpec(t);
    var a := |s| - |t|;
    var r := Trim(s);
    forall k | a + |r| <= k < |s| ensures IsSpace(s[k]) {
      assert s[k] == t[k - a];
    }
  }

  /**
   * The raw (untrimmed) fields of `s` read from a state that is inside quotes
   * when `inQuotes` holds. The first element continues the field in progress.
   */
  function Pieces(s: string, inQuotes: bool): (r: seq<string>)
    ensures |r| >= 1
  {
    if s == [] then [""]
    else if s[0] == '"' then Pieces(s[1..], !inQuotes)
    else if s[0] == ',' && !inQuotes then [""] + Pieces(s[1..], false)
    else
      var p := Pieces(s[1..], inQuotes);
      [[s[0]] + p[0]] + p[1..]
  }

  /** Every field trimmed, in order. */
  function TrimAll(ps: seq<string>): (fs: seq<string>)
    ensures |fs| == |ps|
  {
    if ps == [] then [] else TrimAll(ps[..|ps| - 1]) + [Trim(ps[|ps| - 1])]
  }

  lemma {:induction false} TrimAllAt(ps: seq<string>)
    ensures forall k | 0 <= k < |ps| :: TrimAll(ps)[k] == Trim(ps[k])
  {
    if ps != [] {
      TrimAllAt(ps[..|ps| - 1]);
    }
  }

  lemma TrimAllSnoc(ps: seq<string>, x: string)
    ensures TrimAll(ps + [x]) == TrimAll(ps) + [Trim(x)]
  {
    assert (ps + [x])[..|ps|] == ps;
  }

  /** The trimmed fields of a line: what the character loop produces. */
  function Fields(line: string): (f: seq<string>)
    ensures |f| == |Pieces(line, false)|
  {
    TrimAll(Pieces(line, false))
  }

  /** `field.replace(/^"|"$/g, '')`: drop a leading and a trailing double quote. */
  function StripQuotes(s: string): (r: string)
    ensures |s| - 2 <= |r| <= |s|
    ensures r == s <==> s == [] || (s[0] != '"' && s[|s| - 1] != '"')
    ensures |s| >= 2 && s[0] == '"' && s[|s| - 1] == '"' ==> r == s[1..|s| - 1]
    ensures |s| >= 1 && s[0] == '"' && !(|s| >= 2 && s[|s| - 1] == '"') ==> r == s[1..]
    ensures |s| >= 1 && s[0] != '"' && s[|s| - 1] == '"' ==> r == s[..|s| - 1]
    ensures s == "\"" ==> r == []
  {
    var a := if |s| > 0 && s[0] == '"' then 1 else 0;
    var b := if |s| > a && s[|s| - 1] == '"' then |s| - 1 else |s|;
    s[a..b]
  }

  /** `fields.map(field => field.replace(/^"|"$/g, ''))`. */
  function StripAll(fs: seq<string>): (cs: seq<string>)
    ensures |cs| == |fs|
  {
    if fs == [] then [] else StripAll(fs[..|fs| - 1]) + [StripQuotes(fs[|fs| - 1])]
  }

  lemma {:induction false} StripAllAt(fs: seq<string>)
    ensures forall k | 0 <= k < |fs| :: StripAll(fs)[k] == StripQuotes(fs[k])
  {
    if fs != [] {
      StripAllAt(fs[..|fs| - 1]);
    }
  }

  /** One entry of the import. */
  datatype JapanPostalRecord = JapanPostalRecord(
    postalCode: string,
    prefecture: string,
    city: string,
    town: string,
    kana: string,
    romanized: Option<string>)

  /** The columns of a KEN_ALL line that the import keeps. */
  function ToRecord(f: seq<string>): (r: JapanPostalRecord)
    requires |f| >= 15
    ensures r.postalCode == f[2] && r.prefecture == f[6] && r.city == f[7] && r.town == f[8]
    ensures r.romanized.None?
  {
    JapanPostalRecord(f[2], f[6], f[7], f[8], Trim(f[3] + " " + f[4] + " " + f[5]), None)
  }

  /** `parseCSVLine`: the record of a line, or None when it has fewer than 15 fields. */
  function ParseLine(line: string): (r: Option<JapanPostalRecord>) {
    var fields := Fields(line);
    if |fields| < 15 then None
    else Some(ToRecord(StripAll(fields)))
  }

  /**
   * The character loop of `parseCSVLine`: a double quote toggles the quoted
   * state and is dropped, a comma outside quotes ends the field, and every
   * field is trimmed when it ends.
   */
  method SplitFields(line: string) returns (fields: seq<string>)
    ensures fields == Fields(line)
  {
    fields := [];
    ghost var raw: seq<string> := [];
    var current := "";
    var inQuotes := false;
    assert line[0..] == line;
    AssembleStart(Pieces(line, false));
    for i := 0 to |line|
      invariant Assemble(raw, current, Pieces(line[i..], inQuotes)) == Pieces(line, false)
      invariant fields == TrimAll(raw)
    {
      var c := line[i];
      PiecesStep(line, i, inQuotes);
      if c == '"' {
        inQuotes := !inQuotes;
      } else if c == ',' && !inQuotes {
        AssembleComma(raw, current, Pieces(line[i + 1..], false));
        TrimAllSnoc(raw, current);
        fields := fields + [Trim(current)];
        raw := raw + [current];
        current := "";
      } else {
        AssembleChar(raw, current, c, Pieces(line[i + 1..], inQuotes));
        current := current + [c];
      }
    }
    assert line[|line|..] == [];
    AssembleEnd(raw, current);
    TrimAllSnoc(raw, current);
    fields := fields + [Trim(current)];
    raw := raw + [current];
  }

  /** `parseCSVLine`: split the line, require 15 fields, clean them and pick the columns. */
  method ParseCSVLine(line: string) returns (r: Option<JapanPostalRecord>)
    ensures r == ParseLine(line)
  {
    var fields := SplitFields(line);
    if |fields| < 15 {
      return None;
    }
    var cleanFields := StripAll(fields);
    r := Some(ToRecord(cleanFields));
  }

  /**
   * The raw fields of the whole line, from those already pushed, the field in
   * progress and the pieces of the rest of the line.
   */
  ghost function Assemble(raw: seq<string>, current: string, rest: seq<string>): (ps: seq<string>)
    requires |rest| >= 1
  {
    raw + [current + rest[0]] + rest[1..]
  }

  lemma AssembleStart(ps: seq<string>)
    requires |ps| >= 1
    ensures Assemble([], "", ps) == ps
  {
    assert "" + ps[0] == ps[0];
  }

  lemma AssembleComma(raw: seq<string>, current: string, rest: seq<string>)
    requires |rest| >= 1
    ensures Assemble(raw, current, [""] + rest) == Assemble(raw + [current], "", rest)
  {
    assert current + "" == current;
    assert "" + rest[0] == rest[0];
    assert ([""] + rest)[1..] == rest;
  }

  lemma AssembleChar(raw: seq<string>, current: string, c: char, rest: seq<string>)
    requires |rest| >= 1
    ensures Assemble(raw, current, [[c] + rest[0]] + rest[1..]) == Assemble(raw, current + [c], rest)
  {
    assert current + ([c] + rest[0]) == (current + [c]) + rest[0];
    assert ([[c] + rest[0]] + rest[1..])[1..] == rest[1..];
  }

  lemma AssembleEnd(raw: seq<string>, current: string)
    ensures Assemble(raw, current, [""]) == raw + [current]
  {
    assert current + "" == current;
  }

  /** One character of the loop, in terms of the pieces of the rest of the line. */
  lemma PiecesStep(line: string, i: nat, inQuotes: bool)
    requires i < |line|
    ensures var p := Pieces(line[i + 1..], inQuotes);
      Pieces(line[i..], inQuotes) ==
        if line[i] == '"' then Pieces(line[i + 1..], !inQuotes)
        else if line[i] == ',' && !inQuotes then [""] + Pieces(line[i + 1..], false)
        else [[line[i]] + p[0]] + p[1..]
  {
    assert line[i..][1..] == line[i + 1..];
  }

  // ---------------------------------------------------------------------------
  // Properties of the line reader
  // ---------------------------------------------------------------------------

  /** `s` with every double quote removed. */
  function Unquoted(s: string): (r: string)
    ensures |r| <= |s|
  {
    if s == [] then []
    else (if s[0] == '"' then [] else [s[0]]) + Unquoted(s[1..])
  }

  /** The pieces joined again with commas between them. */
  function Join(ps: seq<string>): (s: string)
    requires |ps| >= 1
  {
    ps[0] + CommaEach(ps[1..])
  }

  /** Each piece preceded by a comma. */
  function CommaEach(ps: seq<string>): (s: string) {
    if ps == [] then "" else "," + ps[0] + CommaEach(ps[1..])
  }

  lemma JoinExtendFirst(x: string, ps: seq<string>)
    requires |ps| >= 1
    ensures Join([x + ps[0]] + ps[1..]) == x + Join(ps)
  {
    var qs := [x + ps[0]] + ps[1..];
    assert qs[0] == x + ps[0] && qs[1..] == ps[1..];
  }

  /**
   * The split loses nothing but the quotes: joining the raw fields with
   * commas gives back the line without its double quotes.
   */
  lemma {:induction false} PiecesJoin(s: string, inQuotes: bool)
    ensures Join(Pieces(s, inQuotes)) == Unquoted(s)
  {
    if s != [] {
      var tail := Pieces(s[1..], if s[0] == ',' && !inQuotes then false else inQuotes);
      if s[0] == '"' {
        PiecesJoin(s[1..], !inQuotes);
      } else if s[0] == ',' && !inQuotes {
        PiecesJoin(s[1..], false);
        CommaJoin(tail);
      } else {
        PiecesJoin(s[1..], inQuotes);
        JoinExtendFirst([s[0]], tail);
      }
    }
  }

  /** A field that ends at a comma joins to a comma in front of the rest. */
  lemma CommaJoin(ps: seq<string>)
    requires |ps| >= 1
    ensures Join([""] + ps) == "," + Join(ps)
  {
    var qs := [""] + ps;
    assert qs[1..] == ps;
  }

  /** No raw field ever holds a double quote: the loop drops every one. */
  lemma {:induction false} PiecesQuoteFree(s: string, inQuotes: bool)
    ensures forall j, k | 0 <= j < |Pieces(s, inQuotes)| && 0 <= k < |Pieces(s, inQuotes)[j]| ::
      Pieces(s, inQuotes)[j][k] != '"'
  {
    if s != [] {
      PiecesQuoteFree(s[1..], if s[0] == '"' then !inQuotes else if s[0] == ',' && !inQuotes then false else inQuotes);
    }
  }

  /** A line without a comma is a single raw field. */
  lemma {:induction false} NoCommaOnePiece(s: string, inQuotes: bool)
    requires forall k | 0 <= k < |s| :: s[k] != ','
    ensures |Pieces(s, inQuotes)| == 1
  {
    if s != [] {
      PiecesQuoteFree(s, inQuotes);
      NoCommaOnePiece(s[1..], if s[0] == '"' then !inQuotes else inQuotes);
    }
  }

  /** The commas of `s` that the loop meets outside double quotes. */
  function OutsideCommas(s: string, inQuotes: bool): (n: nat)
    ensures n <= |s|
  {
    if s == [] then 0
    else if s[0] == '"' then OutsideCommas(s[1..], !inQuotes)
    else if s[0] == ',' && !inQuotes then 1 + OutsideCommas(s[1..], false)
    else OutsideCommas(s[1..], inQuotes)
  }

  /**
   * A line has one field more than it has commas outside quotes; a comma
   * inside quotes stays in its field.
   */
  lemma {:induction false} PiecesCount(s: string, inQuotes: bool)
    ensures |Pieces(s, inQuotes)| == OutsideCommas(s, inQuotes) + 1
  {
    if s != [] {
      PiecesCount(s[1..], if s[0] == '"' then !inQuotes else if s[0] == ',' && !inQuotes then false else inQuotes);
    }
  }

  /**
   * The fields of a line: one more than its commas outside quotes, each
   * trimmed at both ends and free of double quotes.
   */
  lemma FieldsClean(line: string)
    ensures |Fields(line)| == OutsideCommas(line, false) + 1
    ensures forall j | 0 <= j < |Fields(line)| ::
      var f := Fields(line)[j];
      && (forall k | 0 <= k < |f| :: f[k] != '"')
      && (f != [] ==> !IsSpace(f[0]) && !IsSpace(f[|f| - 1]))
  {
    var p := Pieces(line, false);
    PiecesCount(line, false);
    PiecesQuoteFree(line, false);
    TrimAllAt(p);
    forall j | 0 <= j < |p|
      ensures var f := Fields(line)[j];
        && (forall k | 0 <= k < |f| :: f[k] != '"')
        && (f != [] ==> !IsSpace(f[0]) && !IsSpace(f[|f| - 1]))
    {
      TrimQuoteFree(p[j]);
      TrimSpec(p[j]);
    }
  }

  /** Trimming keeps a field free of double quotes. */
  lemma TrimQuoteFree(s: string)
    requires forall k | 0 <= k < |s| :: s[k] != '"'
    ensures forall k | 0 <= k < |Trim(s)| :: Trim(s)[k] != '"'
  {
    var r := Trim(s);
    var a := |s| - |TrimStart(s)|;
    TrimSpec(s);
    forall k | 0 <= k < |r| ensures r[k] != '"' {
      assert r[k] == s[a + k];
    }
  }

  /**
   * A line gives a record exactly when it has at least 15 fields, and the
   * record takes the trimmed fields 2, 6, 7 and 8 as they are: the quote
   * clean-up never changes a field, since none holds a quote.
   */
  lemma ParseLineSpec(line: string)
    ensures ParseLine(line).None? <==> |Fields(line)| < 15
    ensures ParseLine(line).Some? ==>
      var f := Fields(line);
      var r := ParseLine(line).value;
      && r.postalCode == f[2] && r.prefecture == f[6] && r.city == f[7] && r.town == f[8]
      && r.kana == Trim(f[3] + " " + f[4] + " " + f[5])
      && r.romanized.None?
  {
    var f := Fields(line);
    var p := Pieces(line, false);
    PiecesQuoteFree(line, false);
    if |f| >= 15 {
      TrimAllAt(p);
      StripAllAt(f);
      forall j | 0 <= j < |f| ensures StripAll(f)[j] == f[j] {
        TrimQuoteFree(p[j]);
      }
      assert StripAll(f) == f;
    }
  }

  /** A blank line never gives a record, so skipping it only affects the line count. */
  lemma BlankLineNoRecord(line: string)
    requires Trim(line) == ""
    ensures ParseLine(line).None?
  {
    TrimSpec(line);
    forall k | 0 <= k < |line| ensures line[k] != ',' {
      assert IsSpace(line[k]);
    }
    NoCommaOnePiece(line, false);
  }

  // ---------------------------------------------------------------------------
  // The file reader
  // ---------------------------------------------------------------------------

  /** What one line adds to the result: its record, when it is kept. */
  function KeepLine(line: string): (r: seq<JapanPostalRecord>)
    ensures |r| <= 1
  {
    if Trim(line) == "" then []
    else
      match ParseLine(line)
      case Some(rec) => if rec.postalCode != "" then [rec] else []
      case None => []
  }

  /** The records of the lines, in order. */
  function Kept(lines: seq<string>): (r: seq<JapanPostalRecord>)
    ensures |r| <= |lines|
  {
    if lines == [] then [] else Kept(lines[..|lines| - 1]) + KeepLine(lines[|lines| - 1])
  }

  /** The number of lines that are not blank. */
  function NonBlank(lines: seq<string>): (n: nat)
    ensures n <= |lines|
  {
    if lines == [] then 0
    else NonBlank(lines[..|lines| - 1]) + (if Trim(lines[|lines| - 1]) == "" then 0 else 1)
  }

  /**
   * `parseCSVFile` after the file has been split into lines: the records of
   * the kept lines in order, and the number of lines that are not blank.
   */
  method ParseCSVFile(lines: seq<string>) returns (records: seq<JapanPostalRecord>, processed: nat)
    ensures records == Kept(lines)
    ensures processed == NonBlank(lines)
  {
    records := [];
    processed := 0;
    for i := 0 to |lines|
      invariant records == Kept(lines[..i])
      invariant processed == NonBlank(lines[..i])
    {
      var line := lines[i];
      PrefixStep(lines, i);
      if Trim(line) != "" {
        var record := ParseCSVLine(line);
        KeepLineParsed(line, record);
        if record.Some? && record.value.postalCode != "" {
          records := records + [record.value];
        }
        processed := processed + 1;
      }
    }
    assert lines[..|lines|] == lines;
  }

  /** What a non-blank line contributes, given what it parses to. */
  lemma KeepLineParsed(line: string, record: Option<JapanPostalRecord>)
    requires Trim(line) != "" && record == ParseLine(line)
    ensures KeepLine(line) == if record.Some? && record.value.postalCode != "" then [record.value] else []
  {
  }

  /** One more line of the prefix adds what that line contributes. */
  lemma PrefixStep(lines: seq<string>, i: nat)
    requires i < |lines|
    ensures Kept(lines[..i + 1]) == Kept(lines[..i]) + KeepLine(lines[i])
    ensures NonBlank(lines[..i + 1]) == NonBlank(lines[..i]) + (if Trim(lines[i]) == "" then 0 else 1)
  {
    assert lines[..i + 1][..i] == lines[..i];
  }

  /**
   * A record is kept exactly when some line yields it (parses to it with a
   * non-empty postal code); blank lines make no difference.
   */
  lemma {:induction false} KeptExactly(lines: seq<string>)
    ensures forall rec :: rec in Kept(lines) <==>
      exists k | 0 <= k < |lines| :: Yields(lines[k], rec)
  {
    if lines != [] {
      var init := lines[..|lines| - 1];
      var last := lines[|lines| - 1];
      KeptExactly(init);
      assert Kept(lines) == Kept(init) + KeepLine(last);
      forall rec
        ensures rec in Kept(lines) <==> exists k | 0 <= k < |lines| :: Yields(lines[k], rec)
      {
        KeepLineYields(last, rec);
        SomeSplit(lines, init, line => Yields(line, rec));
      }
    }
  }

  /** Some element satisfies `p` exactly when one before the last does or the last does. */
  lemma SomeSplit<T>(xs: seq<T>, init: seq<T>, p: T -> bool)
    requires xs != [] && init == xs[..|xs| - 1]
    ensures (exists k | 0 <= k < |xs| :: p(xs[k])) <==>
      (exists k | 0 <= k < |init| :: p(init[k])) || p(xs[|xs| - 1])
  {
    if exists k | 0 <= k < |xs| :: p(xs[k]) {
      var k :| 0 <= k < |xs| && p(xs[k]);
      if k < |xs| - 1 {
        assert init[k] == xs[k];
      }
    }
    if exists k | 0 <= k < |init| :: p(init[k]) {
      var k :| 0 <= k < |init| && p(init[k]);
      assert xs[k] == init[k];
    }
  }

  /** The line parses to `rec`, and `rec` has a postal code. */
  predicate Yields(line: string, rec: JapanPostalRecord) {
    ParseLine(line) == Some(rec) && rec.postalCode != ""
  }

  /** A line contributes exactly the record it yields. */
  lemma KeepLineYields(line: string, rec: JapanPostalRecord)
    ensures rec in KeepLine(line) <==> Yields(line, rec)
  {
    if Trim(line) == "" {
      BlankLineNoRecord(line);
    }
  }
}
