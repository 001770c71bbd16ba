/**
 * `parseCSVLine`: splits one line of the place table into fields. Commas
 * inside double quotes do not end a field, `""` inside quotes stands for one
 * literal quote, every other quote only toggles the quoted state and is
 * dropped, and every field is trimmed.
 */
module CsvLine {
  import opened JsString

  /**
   * The parser run over the unread rest of a line: `fields` are the fields
   * already closed, `current` the text of the open field and `inQuotes`
   * whether an opening quote is still unmatched.
   */
  function Scan(rest: string, fields: seq<string>, current: string, inQuotes: bool): (r: seq<string>)
    ensures |r| > |fields| && r[..|fields|] == fields
    decreases |rest|
  {
    if rest == [] then fields + [Trim(current)]
    else if rest[0] == '"' then
      if inQuotes && |rest| > 1 && rest[1] == '"' then Scan(rest[2..], fields, current + ['"'], inQuotes)
      else Scan(rest[1..], fields, current, !inQuotes)
    else if rest[0] == ',' && !inQuotes then Scan(rest[1..], fields + [Trim(current)], [], inQuotes)
    else Scan(rest[1..], fields, current + [rest[0]], inQuotes)
  }

  /**
   * The fields of a whole line: one per comma outside quotes, plus one,
   * and every field trimmed.
   */
  function Fields(line: string): (r: seq<string>)
    ensures |r| == UnquotedCommas(line, false) + 1
    ensures forall i :: 0 <= i < |r| ==> IsTrimmed(r[i])
  {
    FieldCount(line, [], [], false);
    FieldsTrimmed(line, [], [], false);
    Scan(line, [], [], false)
  }

  /**
   * The commas of `s` that stand outside quotes, when `s` is entered in the
   * given quote state. A quote flips the state; an escaped `""` flips it
   * twice, so it never changes which commas count.
   */
  function UnquotedCommas(s: string, inQuotes: bool): nat
  {
    if s == [] then 0
    else (if s[0] == ',' && !inQuotes then 1 else 0)
         + UnquotedCommas(s[1..], if s[0] == '"' then !inQuotes else inQuotes)
  }

  /** `trim` applied to every piece. */
  function TrimEach(parts: seq<string>): (r: seq<string>)
    ensures |r| == |parts|
  {
    if parts == [] then [] else [Trim(parts[0])] + TrimEach(parts[1..])
  }

  /** The `i`th field is the `i`th piece, trimmed. */
  lemma {:induction false} TrimEachAt(parts: seq<string>)
    ensures forall i :: 0 <= i < |parts| ==> TrimEach(parts)[i] == Trim(parts[i])
  {
    if parts != [] {
      TrimEachAt(parts[1..]);
    }
  }

  /** Pieces that are already trimmed are left as they are. */
  lemma {:induction false} TrimEachTrimmed(parts: seq<string>)
    requires forall i :: 0 <= i < |parts| ==> IsTrimmed(parts[i])
    ensures TrimEach(parts) == parts
  {
    if parts != [] {
      TrimEachTrimmed(parts[1..]);
      assert [parts[0]] + parts[1..] == parts;
    }
  }

  method ParseCsvLine(line: string) returns (result: seq<string>)
    ensures result == Fields(line)
    ensures |result| == UnquotedCommas(line, false) + 1
    ensures forall i :: 0 <= i < |result| ==> IsTrimmed(result[i])
    ensures '"' !in line ==> result == TrimEach(Split(line, ','))
  {
    result := [];
    var current := "";
    var inQuotes := false;
    var i := 0;
    while i < |line|
      invariant 0 <= i <= |line|
      invariant Scan(line[i..], result, current, inQuotes) == Fields(line)
    {
      var ch := line[i];
      if ch == '"' {
        if inQuotes && i + 1 < |line| && line[i + 1] == '"' {
          current := current + ['"'];
          i := i + 1;
        } else {
          inQuotes := !inQuotes;
        }
      } else if ch == ',' && !inQuotes {
        result := result + [Trim(current)];
        current := "";
      } else {
        current := current + [ch];
      }
      i := i + 1;
    }
    result := result + [Trim(current)];
    if '"' !in line {
      UnquotedLine(line, [], []);
      PrependNothing(Split(line, ','));
    }
  }

  /** One field per unquoted comma, plus one. */
  lemma {:induction false} FieldCount(rest: string, fields: seq<string>, current: string, inQuotes: bool)
    ensures |Scan(rest, fields, current, inQuotes)| == |fields| + 1 + UnquotedCommas(rest, inQuotes)
    decreases |rest|
  {
    if rest == [] {
    } else if rest[0] == '"' {
      if inQuotes && |rest| > 1 && rest[1] == '"' {
        FieldCount(rest[2..], fields, current + ['"'], inQuotes);
        assert rest[1..][1..] == rest[2..];
      } else {
        FieldCount(rest[1..], fields, current, !inQuotes);
      }
    } else if rest[0] == ',' && !inQuotes {
      FieldCount(rest[1..], fields + [Trim(current)], [], inQuotes);
    } else {
      FieldCount(rest[1..], fields, current + [rest[0]], inQuotes);
    }
  }

  /** Every field the parser produces is trimmed. */
  lemma {:induction false} FieldsTrimmed(rest: string, fields: seq<string>, current: string, inQuotes: bool)
    requires forall i :: 0 <= i < |fields| ==> IsTrimmed(fields[i])
    ensures forall i :: 0 <= i < |Scan(rest, fields, current, inQuotes)| ==>
              IsTrimmed(Scan(rest, fields, current, inQuotes)[i])
    decreases |rest|
  {
    if rest == [] {
    } else if rest[0] == '"' {
      if inQuotes && |rest| > 1 && rest[1] == '"' {
        FieldsTrimmed(rest[2..], fields, current + ['"'], inQuotes);
      } else {
        FieldsTrimmed(rest[1..], fields, current, !inQuotes);
      }
    } else if rest[0] == ',' && !inQuotes {
      FieldsTrimmed(rest[1..], fields + [Trim(current)], [], inQuotes);
    } else {
      FieldsTrimmed(rest[1..], fields, current + [rest[0]], inQuotes);
    }
  }

  /** `parts` with `p` put in front of its first element. */
  function PrependFirst(p: string, parts: seq<string>): seq<string>
    requires |parts| >= 1
  {
    [p + parts[0]] + parts[1..]
  }

  lemma PrependNothing(parts: seq<string>)
    requires |parts| >= 1
    ensures PrependFirst([], parts) == parts
  {
    assert [] + parts[0] == parts[0];
  }

  /**
   * Without quotes the parser is `split(',')` followed by `trim` on each
   * piece.
   */
  lemma {:induction false} UnquotedLine(rest: string, fields: seq<string>, current: string)
    requires '"' !in rest
    ensures Scan(rest, fields, current, false) == fields + TrimEach(PrependFirst(current, Split(rest, ',')))
    decreases |rest|, 1
  {
    if rest == [] {
      assert current + [] == current;
    } else if rest[0] == ',' {
      UnquotedComma(rest, fields, current);
    } else {
      UnquotedOther(rest, fields, current);
    }
  }

  lemma {:induction false} UnquotedComma(rest: string, fields: seq<string>, current: string)
    requires '"' !in rest && rest != [] && rest[0] == ','
    ensures Scan(rest, fields, current, false) == fields + TrimEach(PrependFirst(current, Split(rest, ',')))
    decreases |rest|, 0
  {
    var tail := Split(rest[1..], ',');
    var t := Trim(current);
    assert '"' !in rest[1..];
    calc {
      Scan(rest, fields, current, false);
      Scan(rest[1..], fields + [t], [], false);
      { UnquotedLine(rest[1..], fields + [t], []); }
      fields + [t] + TrimEach(PrependFirst([], tail));
      { PrependNothing(tail); }
      fields + [t] + TrimEach(tail);
      { assert TrimEach([current] + tail) == [t] + TrimEach(tail) by {
          assert ([current] + tail)[1..] == tail;
        }
      }
      fields + TrimEach([current] + tail);
      { assert PrependFirst(current, Split(rest, ',')) == [current] + tail by {
          assert rest == [rest[0]] + rest[1..];
          assert Split(rest, ',') == [[]] + tail;
          assert ([[]] + tail)[1..] == tail;
          assert current + [] == current;
        }
      }
      fields + TrimEach(PrependFirst(current, Split(rest, ',')));
    }
  }

  lemma {:induction false} UnquotedOther(rest: string, fields: seq<string>, current: string)
    requires '"' !in rest && rest != [] && rest[0] != ','
    ensures Scan(rest, fields, current, false) == fields + TrimEach(PrependFirst(current, Split(rest, ',')))
    decreases |rest|, 0
  {
    var tail := Split(rest[1..], ',');
    assert '"' !in rest[1..];
    UnquotedLine(rest[1..], fields, current + [rest[0]]);
    assert PrependFirst(current, Split(rest, ',')) == PrependFirst(current + [rest[0]], tail) by {
      assert rest == [rest[0]] + rest[1..];
      assert Split(rest, ',') == [[rest[0]] + tail[0]] + tail[1..];
      assert current + ([rest[0]] + tail[0]) == (current + [rest[0]]) + tail[0];
      assert ([[rest[0]] + tail[0]] + tail[1..])[1..] == tail[1..];
    }
  }

  /** A field's text with every quote doubled. */
  function Escape(f: string): string
  {
    if f == [] then []
    else (if f[0] == '"' then ['"', '"'] else [f[0]]) + Escape(f[1..])
  }

  /** A field written as a quoted CSV field. */
  function Quote(f: string): string
  {
    ['"'] + Escape(f) + ['"']
  }

  /** A row of fields written as one CSV line, every field quoted. */
  function EncodeRow(fs: seq<string>): string
    requires |fs| >= 1
  {
    if |fs| == 1 then Quote(fs[0]) else Quote(fs[0]) + [','] + EncodeRow(fs[1..])
  }

  /** Inside quotes an escaped field is copied literally, up to its closing quote. */
  lemma {:induction false} ScanEscaped(f: string, rest: string, fields: seq<string>, current: string)
    requires rest == [] || rest[0] != '"'
    ensures Scan(Escape(f) + ['"'] + rest, fields, current, true) == Scan(rest, fields, current + f, false)
    decreases |f|
  {
    var s := Escape(f) + ['"'] + rest;
    if f == [] {
      assert s == ['"'] + rest;
      assert s[1..] == rest;
      assert current + f == current;
    } else if f[0] == '"' {
      ScanEscaped(f[1..], rest, fields, current + ['"']);
      assert s == ['"', '"'] + (Escape(f[1..]) + ['"'] + rest);
      assert s[2..] == Escape(f[1..]) + ['"'] + rest;
      assert current + ['"'] + f[1..] == current + f;
    } else {
      ScanEscaped(f[1..], rest, fields, current + [f[0]]);
      assert s == [f[0]] + (Escape(f[1..]) + ['"'] + rest);
      assert s[1..] == Escape(f[1..]) + ['"'] + rest;
      assert current + [f[0]] + f[1..] == current + f;
    }
  }

  /** A quoted field followed by a comma closes exactly that field. */
  lemma QuotedFieldThenComma(f: string, rest: string, fields: seq<string>)
    ensures Scan(Quote(f) + [','] + rest, fields, [], false) == Scan(rest, fields + [Trim(f)], [], false)
  {
    var s := Quote(f) + [','] + rest;
    assert s == ['"'] + (Escape(f) + ['"'] + ([','] + rest));
    assert s[1..] == Escape(f) + ['"'] + ([','] + rest);
    ScanEscaped(f, [','] + rest, fields, []);
    assert [] + f == f;
    assert ([','] + rest)[1..] == rest;
  }

  /** A quoted field at the end of the line closes the line. */
  lemma LastQuotedField(f: string, fields: seq<string>)
    ensures Scan(Quote(f), fields, [], false) == fields + [Trim(f)]
  {
    var s := Quote(f);
    assert s == ['"'] + (Escape(f) + ['"'] + []);
    assert s[1..] == Escape(f) + ['"'] + [];
    ScanEscaped(f, [], fields, []);
    assert [] + f == f;
  }

  /** Parsing a row written with every field quoted gives back the trimmed fields. */
  lemma {:induction false} EncodeRowScan(fs: seq<string>, fields: seq<string>)
    requires |fs| >= 1
    ensures Scan(EncodeRow(fs), fields, [], false) == fields + TrimEach(fs)
    decreases |fs|
  {
    if |fs| == 1 {
      LastQuotedField(fs[0], fields);
      assert TrimEach(fs) == [Trim(fs[0])];
    } else {
      var tail := EncodeRow(fs[1..]);
      calc {
        Scan(EncodeRow(fs), fields, [], false);
        Scan(Quote(fs[0]) + [','] + tail, fields, [], false);
        { QuotedFieldThenComma(fs[0], tail, fields); }
        Scan(tail, fields + [Trim(fs[0])], [], false);
        { EncodeRowScan(fs[1..], fields + [Trim(fs[0])]); }
        fields + [Trim(fs[0])] + TrimEach(fs[1..]);
        { assert TrimEach(fs) == [Trim(fs[0])] + TrimEach(fs[1..]); }
        fields + TrimEach(fs);
      }
    }
  }

  /**
   * Round trip: a row of trimmed fields, each written quoted (commas and
   * quotes included), parses back to exactly those fields.
   */
  lemma RoundTrip(fs: seq<string>)
    requires |fs| >= 1
    requires forall i :: 0 <= i < |fs| ==> IsTrimmed(fs[i])
    ensures Fields(EncodeRow(fs)) == fs
  {
    EncodeRowScan(fs, []);
    assert [] + TrimEach(fs) == TrimEach(fs);
    TrimEachTrimmed(fs);
  }
}
