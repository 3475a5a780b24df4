/**
 * A reader for the comma-separated format of section 2 of RFC 4180, with
 * LF as the line break (the table exports write LF, not CRLF). It is the
 * independent partner against which the CSV writers are proved: a field is
 * either escaped (between double quotes, a doubled quote standing for one)
 * or plain (no quote, comma, CR or LF); fields are separated by commas and
 * records by line breaks, and the last record may end with a line break.
 */
module Rfc4180 {
  import opened Wrappers
  import JsText

  /** The escaped field's contents after its opening quote, and what follows its closing quote. */
  function ReadQuoted(s: string): (r: Option<(string, string)>)
    ensures r.Some? ==> |r.value.1| < |s|
    decreases |s|
  {
    if s == [] then None
    else if s[0] == '"' then
      if |s| > 1 && s[1] == '"' then
        match ReadQuoted(s[2..])
        case None => None
        case Some(p) => Some(("\"" + p.0, p.1))
      else Some(("", s[1..]))
    else
      match ReadQuoted(s[1..])
      case None => None
      case Some(p) => Some(([s[0]] + p.0, p.1))
  }

  /** A plain field: everything up to the next comma or line break; a quote or CR in it is malformed. */
  function ReadPlain(s: string): (r: Option<(string, string)>)
    ensures r.Some? ==> |r.value.1| <= |s|
    decreases |s|
  {
    if s == [] || s[0] == ',' || s[0] == '\n' then Some(("", s))
    else if s[0] == '"' || s[0] == '\r' then None
    else
      match ReadPlain(s[1..])
      case None => None
      case Some(p) => Some(([s[0]] + p.0, p.1))
  }

  /** One field and the text after it. */
  function ReadField(s: string): (r: Option<(string, string)>)
    ensures r.Some? ==> |r.value.1| <= |s|
  {
    if s != [] && s[0] == '"' then ReadQuoted(s[1..]) else ReadPlain(s)
  }

  /** The fields of one record and the text after it. */
  function ReadRecord(s: string): (r: Option<(seq<string>, string)>)
    ensures r.Some? ==> |r.value.1| <= |s| && r.value.0 != []
    decreases |s|
  {
    match ReadField(s)
    case None => None
    case Some(p) =>
      if p.1 != [] && p.1[0] == ',' then
        match ReadRecord(p.1[1..])
        case None => None
        case Some(q) => Some(([p.0] + q.0, q.1))
      else Some(([p.0], p.1))
  }

  /** A whole file: records separated by line breaks, the last one optionally followed by one. */
  function ReadDocument(s: string): (r: Option<seq<seq<string>>>)
    ensures r.Some? ==> r.value != []
    decreases |s|
  {
    match ReadRecord(s)
    case None => None
    case Some(p) =>
      if p.1 == [] || p.1 == "\n" then Some([p.0])
      else if p.1[0] == '\n' then
        match ReadDocument(p.1[1..])
        case None => None
        case Some(more) => Some([p.0] + more)
      else None
  }

  // ------------------------------------------------------------ writing side

  predicate FieldEnd(rest: string) {
    rest == [] || rest[0] == ',' || rest[0] == '\n'
  }

  /** `enc`, written as a field, is read back as `val` whatever separator follows. */
  ghost predicate Reads(enc: string, val: string) {
    forall rest {:trigger ReadField(enc + rest)} :: FieldEnd(rest) ==> ReadField(enc + rest) == Some((val, rest))
  }

  /** An escaped field: its quotes doubled and the whole in quotes. */
  function Quoted(v: string): (r: string)
    ensures |r| >= 2 && r[0] == '"' && r[|r| - 1] == '"'
  {
    "\"" + JsText.DoubleQuotes(v) + "\""
  }

  lemma {:induction false} ReadQuotedOf(v: string, rest: string)
    requires rest == [] || rest[0] != '"'
    ensures ReadQuoted(JsText.DoubleQuotes(v) + "\"" + rest) == Some((v, rest))
    decreases |v|
  {
    if v == [] {
      assert JsText.DoubleQuotes(v) + "\"" + rest == "\"" + rest;
    } else {
      var dq := JsText.DoubleQuotes(v[1..]);
      var tail := dq + "\"" + rest;
      ReadQuotedOf(v[1..], rest);
      var head := if v[0] == '"' then "\"\"" else [v[0]];
      assert JsText.DoubleQuotes(v) == head + dq;
      var s := JsText.DoubleQuotes(v) + "\"" + rest;
      assert s == head + tail;
      if v[0] == '"' {
        assert s[0] == '"' && s[1] == '"' && s[2..] == tail;
      } else {
        assert s[0] == v[0] && s[1..] == tail;
      }
      assert [v[0]] + v[1..] == v;
    }
  }

  /** Every string, escaped, is read back exactly. */
  lemma QuotedReads(v: string)
    ensures Reads(Quoted(v), v)
  {
    forall rest | FieldEnd(rest)
      ensures ReadField(Quoted(v) + rest) == Some((v, rest))
    {
      ReadQuotedOf(v, rest);
      assert Quoted(v) + rest == "\"" + (JsText.DoubleQuotes(v) + "\"" + rest);
    }
  }

  /** The characters a plain field cannot hold. */
  predicate Plain(v: string) {
    forall i :: 0 <= i < |v| ==> v[i] != '"' && v[i] != ',' && v[i] != '\n' && v[i] != '\r'
  }

  lemma {:induction false} ReadPlainOf(v: string, rest: string)
    requires Plain(v) && FieldEnd(rest)
    ensures ReadPlain(v + rest) == Some((v, rest))
    decreases |v|
  {
    if v == [] {
      assert v + rest == rest;
    } else {
      ReadPlainOf(v[1..], rest);
      assert (v + rest)[1..] == v[1..] + rest;
      assert [v[0]] + v[1..] == v;
    }
  }

  /** A plain string, written as it is, is read back exactly. */
  lemma PlainReads(v: string)
    requires Plain(v) && (v == [] || v[0] != '"')
    ensures Reads(v, v)
  {
    forall rest | FieldEnd(rest)
      ensures ReadField(v + rest) == Some((v, rest))
    {
      ReadPlainOf(v, rest);
    }
  }

  /** Fields joined by commas are read back as their values, up to a line break or the end. */
  lemma {:induction false} RecordReads(encs: seq<string>, vals: seq<string>, rest: string)
    requires |encs| == |vals| > 0
    requires forall i :: 0 <= i < |encs| ==> Reads(encs[i], vals[i])
    requires rest == [] || rest[0] == '\n'
    ensures ReadRecord(JsText.Join(encs, ",") + rest) == Some((vals, rest))
    decreases |encs|
  {
    if |encs| == 1 {
      assert Reads(encs[0], vals[0]);
      assert ReadField(encs[0] + rest) == Some((vals[0], rest));
      assert vals == [vals[0]];
    } else {
      var tail := JsText.Join(encs[1..], ",") + rest;
      assert JsText.Join(encs, ",") + rest == encs[0] + ("," + tail);
      assert Reads(encs[0], vals[0]);
      assert ReadField(encs[0] + ("," + tail)) == Some((vals[0], "," + tail));
      assert ("," + tail)[1..] == tail;
      assert forall i :: 0 <= i < |encs[1..]| ==> Reads(encs[1..][i], vals[1..][i]) by {
        forall i | 0 <= i < |encs[1..]|
          ensures Reads(encs[1..][i], vals[1..][i])
        {
          assert encs[1..][i] == encs[i + 1] && vals[1..][i] == vals[i + 1];
        }
      }
      RecordReads(encs[1..], vals[1..], rest);
      assert vals == [vals[0]] + vals[1..];
    }
  }

  /** The records of a file: each is its fields, encoded and joined by commas. */
  ghost predicate LinesRead(lines: seq<string>, vals: seq<seq<string>>) {
    |lines| == |vals| && forall i :: 0 <= i < |lines| ==> LineReads(lines[i], vals[i])
  }

  ghost predicate LineReads(line: string, val: seq<string>) {
    forall rest {:trigger ReadRecord(line + rest)} :: (rest == [] || rest[0] == '\n') ==> ReadRecord(line + rest) == Some((val, rest))
  }

  lemma LineOfFields(encs: seq<string>, vals: seq<string>)
    requires |encs| == |vals| > 0
    requires forall i :: 0 <= i < |encs| ==> Reads(encs[i], vals[i])
    ensures LineReads(JsText.Join(encs, ","), vals)
  {
    forall rest | rest == [] || rest[0] == '\n'
      ensures ReadRecord(JsText.Join(encs, ",") + rest) == Some((vals, rest))
    {
      RecordReads(encs, vals, rest);
    }
  }

  /**
   * Lines joined by line breaks, with no final line break, are read back as
   * their records, unless the last of several lines is empty: a file may end
   * with a line break, so an empty last line cannot be told from none.
   */
  lemma {:induction false} DocumentReads(lines: seq<string>, vals: seq<seq<string>>)
    requires lines != [] && LinesRead(lines, vals)
    requires |lines| > 1 ==> lines[|lines| - 1] != []
    ensures ReadDocument(JsText.Join(lines, "\n")) == Some(vals)
    decreases |lines|
  {
    if |lines| == 1 {
      assert LineReads(lines[0], vals[0]);
      assert lines[0] + [] == lines[0];
      assert ReadRecord(lines[0] + []) == Some((vals[0], []));
      assert vals == [vals[0]];
    } else {
      var tail := JsText.Join(lines[1..], "\n");
      assert JsText.Join(lines, "\n") == lines[0] + ("\n" + tail);
      assert LineReads(lines[0], vals[0]);
      assert ReadRecord(lines[0] + ("\n" + tail)) == Some((vals[0], "\n" + tail));
      assert tail != [] by {
        if |lines[1..]| == 1 {
          assert tail == lines[1];
        }
      }
      assert ("\n" + tail)[1..] == tail;
      assert LinesRead(lines[1..], vals[1..]) by {
        forall i | 0 <= i < |lines[1..]|
          ensures LineReads(lines[1..][i], vals[1..][i])
        {
          assert lines[1..][i] == lines[i + 1] && vals[1..][i] == vals[i + 1];
        }
      }
      DocumentReads(lines[1..], vals[1..]);
      assert vals == [vals[0]] + vals[1..];
    }
  }

  /** `join("\n")` of each line followed by its own line break. */
  function Terminated(lines: seq<string>): string {
    if lines == [] then "" else Terminated(lines[..|lines| - 1]) + lines[|lines| - 1] + "\n"
  }

  lemma TerminatedSnoc(lines: seq<string>, x: string)
    ensures Terminated(lines + [x]) == Terminated(lines) + x + "\n"
  {
    assert (lines + [x])[..|lines|] == lines;
  }

  lemma {:induction false} TerminatedCons(line: string, lines: seq<string>)
    ensures Terminated([line] + lines) == line + "\n" + Terminated(lines)
    decreases |lines|
  {
    if lines == [] {
      assert [line] + lines == [line];
      assert [line][..0] == [];
    } else {
      var n := |lines|;
      assert ([line] + lines)[..n] == [line] + lines[..n - 1];
      TerminatedCons(line, lines[..n - 1]);
    }
  }

  /** Lines each followed by a line break, as the export manager writes them, read back as their records. */
  lemma {:induction false} TerminatedReads(lines: seq<string>, vals: seq<seq<string>>)
    requires lines != [] && LinesRead(lines, vals)
    ensures ReadDocument(Terminated(lines)) == Some(vals)
    decreases |lines|
  {
    var tail := Terminated(lines[1..]);
    assert [lines[0]] + lines[1..] == lines;
    TerminatedCons(lines[0], lines[1..]);
    assert Terminated(lines) == lines[0] + ("\n" + tail);
    assert LineReads(lines[0], vals[0]);
    assert ReadRecord(lines[0] + ("\n" + tail)) == Some((vals[0], "\n" + tail));
    if |lines| == 1 {
      assert tail == [];
      assert vals == [vals[0]];
    } else {
      assert tail != [];
      assert ("\n" + tail)[1..] == tail;
      assert LinesRead(lines[1..], vals[1..]) by {
        forall i | 0 <= i < |lines[1..]|
          ensures LineReads(lines[1..][i], vals[1..][i])
        {
          assert lines[1..][i] == lines[i + 1] && vals[1..][i] == vals[i + 1];
        }
      }
      TerminatedReads(lines[1..], vals[1..]);
      assert vals == [vals[0]] + vals[1..];
    }
  }
}
