/**
 * Reading the kernel's per-interface statistics table (/proc/net/dev):
 * `readnet` turns its lines into a table from interface name to the
 * whitespace-split counter fields, and `get_traffic` picks receive bytes
 * (field 0) and transmit bytes (field 8) for one interface. The file read
 * itself is the `lines` parameter (the list readlines() returns).
 */
module ProcNetDev {
  import opened Wrappers
  import opened PyText

  /** readnet()'s dictionary: interface name to the fields after its colon. */
  type NetTable = map<string, seq<string>>

  /** The Python exceptions these functions let escape. */
  datatype Error =
    | MalformedLine(line: string)  // `dev, vals = l.split(":")` raised ValueError
    | MissingField(index: nat)     // `net[iface][index]` raised IndexError
    | NotANumber(text: string)     // `int(text)` raised ValueError

  /** readlines()[2:]: the two header lines are dropped. */
  function Rows(lines: seq<string>): (rows: seq<string>)
    ensures |lines| >= 2 ==> lines == lines[..2] + rows
    ensures |lines| < 2 ==> rows == []
  {
    if |lines| < 2 then [] else lines[2..]
  }

  /** One row: the stripped text before its only colon, and the words after it. */
  function Entry(line: string): Option<(string, seq<string>)> {
    match SplitColon(line)
    case None => None
    case Some((dev, vals)) => Some((Strip(dev), Words(vals)))
  }

  /** A row parser: Entry in readnet(); the lemmas below hold for any. */
  type Parser = string -> Option<(string, seq<string>)>

  predicate WellFormed(rows: seq<string>, parse: Parser) {
    forall i :: 0 <= i < |rows| ==> parse(rows[i]).Some?
  }

  /**
   * The table the readnet loop builds from its rows, in order, a later row
   * for a name replacing an earlier one; the first malformed row raises.
   */
  function Fill(rows: seq<string>, parse: Parser): Result<NetTable, Error> {
    if rows == [] then Ok(map[])
    else match Fill(rows[..|rows| - 1], parse)
      case Err(e) => Err(e)
      case Ok(t) =>
        match parse(rows[|rows| - 1])
        case None => Err(MalformedLine(rows[|rows| - 1]))
        case Some((dev, vals)) => Ok(t[dev := vals])
  }

  /** readnet()'s result for the rows after the header. */
  function Table(rows: seq<string>): Result<NetTable, Error> {
    Fill(rows, Entry)
  }

  /** readnet(): fills the dictionary one row at a time. */
  method ReadNet(lines: seq<string>) returns (r: Result<NetTable, Error>)
    ensures r == Table(Rows(lines))
  {
    var data := if |lines| < 2 then [] else lines[2..];
    var net: NetTable := map[];
    var i := 0;
    while i < |data|
      invariant 0 <= i <= |data|
      invariant Fill(data[..i], Entry) == Ok(net)
    {
      assert data[..i + 1][..i] == data[..i];
      var e := Entry(data[i]);
      if e.None? {
        FillPrefixError(data, Entry, i + 1);
        return Err(MalformedLine(data[i]));
      }
      var (dev, vals) := e.value;
      net := net[dev := vals];
      i := i + 1;
    }
    assert data[..i] == data;
    return Ok(net);
  }

  /** Once a prefix of the rows raises, so does the whole table, with the same error. */
  lemma {:induction false} FillPrefixError(rows: seq<string>, parse: Parser, k: nat)
    requires k <= |rows| && Fill(rows[..k], parse).Err?
    ensures Fill(rows, parse) == Fill(rows[..k], parse)
    decreases |rows|
  {
    if k < |rows| {
      var front := rows[..|rows| - 1];
      assert front[..k] == rows[..k];
      FillPrefixError(front, parse, k);
    } else {
      assert rows[..k] == rows;
    }
  }

  /** readnet() succeeds exactly when every row parses (has one colon). */
  lemma {:induction false} FillOk(rows: seq<string>, parse: Parser)
    ensures Fill(rows, parse).Ok? <==> WellFormed(rows, parse)
  {
    if rows != [] {
      var front := rows[..|rows| - 1];
      FillOk(front, parse);
      assert forall i :: 0 <= i < |front| ==> front[i] == rows[i];
    }
  }

  /** The exception readnet() raises names the first malformed row. */
  lemma {:induction false} FillFirstError(rows: seq<string>, parse: Parser, k: nat)
    requires k < |rows| && parse(rows[k]).None?
    requires WellFormed(rows[..k], parse)
    ensures Fill(rows, parse) == Err(MalformedLine(rows[k]))
  {
    var front := rows[..|rows| - 1];
    if k < |rows| - 1 {
      assert front[k] == rows[k] && front[..k] == rows[..k];
      FillFirstError(front, parse, k);
    } else {
      assert front == rows[..k];
      FillOk(front, parse);
    }
  }

  /** The table's names are exactly the names of the rows. */
  lemma {:induction false} FillNames(rows: seq<string>, parse: Parser, name: string)
    requires WellFormed(rows, parse)
    ensures Fill(rows, parse).Ok?
    ensures name in Fill(rows, parse).value <==> exists i :: 0 <= i < |rows| && parse(rows[i]).value.0 == name
  {
    FillOk(rows, parse);
    if rows != [] {
      var front := rows[..|rows| - 1];
      assert forall i :: 0 <= i < |front| ==> front[i] == rows[i];
      FillNames(front, parse, name);
      if name in Fill(rows, parse).value && parse(rows[|rows| - 1]).value.0 != name {
        var i :| 0 <= i < |front| && parse(front[i]).value.0 == name;
        assert parse(rows[i]).value.0 == name;
      }
    }
  }

  /** A name's fields come from the last row that carries that name. */
  lemma {:induction false} FillLastRowWins(rows: seq<string>, parse: Parser, i: nat)
    requires WellFormed(rows, parse) && i < |rows|
    requires forall j :: i < j < |rows| ==> parse(rows[j]).value.0 != parse(rows[i]).value.0
    ensures Fill(rows, parse).Ok?
    ensures parse(rows[i]).value.0 in Fill(rows, parse).value
    ensures Fill(rows, parse).value[parse(rows[i]).value.0] == parse(rows[i]).value.1
  {
    FillOk(rows, parse);
    var front := rows[..|rows| - 1];
    assert forall j :: 0 <= j < |front| ==> front[j] == rows[j];
    if i < |rows| - 1 {
      FillOk(front, parse);
      FillLastRowWins(front, parse, i);
    }
  }

  /**
   * A line of /proc/net/dev as readlines() returns it: the name after
   * whitespace, a colon, whitespace, the counters separated by runs of
   * whitespace, and the newline.
   */
  function FormatRow(indent: string, name: string, lead: string,
                     fields: seq<string>, seps: seq<string>): string
    requires |fields| == |seps| + 1
  {
    indent + name + ":" + lead + Join(fields, seps) + "\n"
  }

  lemma {:induction false} NoColonInJoin(ws: seq<string>, seps: seq<string>)
    requires |ws| == |seps| + 1
    requires forall k :: 0 <= k < |ws| ==> ':' !in ws[k]
    requires forall k :: 0 <= k < |seps| ==> IsSeparator(seps[k])
    ensures ':' !in Join(ws, seps)
    decreases |seps|
  {
    if seps != [] {
      NoColonInJoin(ws[1..], seps[1..]);
    }
  }

  lemma StripIndented(indent: string, name: string)
    requires IsBlank(indent)
    requires IsWord(name)
    ensures Strip(indent + name) == name
  {
    var s := indent + name;
    assert IsSpace(s[|indent|]) == IsSpace(name[0]);
    assert LeadingSpaces(s) == |indent|;
    assert s[|indent|..] == name;
    StripUntrimmed(name);
  }

  /** Parsing a line of the file gives back its name and its fields. */
  lemma EntryOfRow(indent: string, name: string, lead: string, fields: seq<string>, seps: seq<string>)
    requires IsBlank(indent) && IsBlank(lead)
    requires IsWord(name) && ':' !in name
    requires |fields| == |seps| + 1
    requires forall k :: 0 <= k < |fields| ==> IsWord(fields[k]) && ':' !in fields[k]
    requires forall k :: 0 <= k < |seps| ==> IsSeparator(seps[k])
    ensures Entry(FormatRow(indent, name, lead, fields, seps)) == Some((name, fields))
  {
    var counters := lead + Join(fields, seps) + "\n";
    assert FormatRow(indent, name, lead, fields, seps) == (indent + name) + ":" + counters;
    NoColonInJoin(fields, seps);
    assert ':' !in "\n";
    SplitColonOfJoin(indent + name, counters);
    StripIndented(indent, name);
    WordsOfJoin(lead, fields, seps, "\n");
  }

  /**
   * get_traffic's lookup in a table: fields 0 and 8 as integers, (0, 0) for
   * an absent interface; a short row raises IndexError and a non-numeric
   * field ValueError, field 0 being read first.
   */
  function TrafficOf(net: NetTable, iface: string): (r: Result<(int, int), Error>)
    ensures iface !in net ==> r == Ok((0, 0))
    ensures iface in net ==>
      (r.Ok? <==> |net[iface]| > 8 && ParseInt(net[iface][0]).Some? && ParseInt(net[iface][8]).Some?)
    ensures iface in net && r.Ok? ==>
      r.value == (ParseInt(net[iface][0]).value, ParseInt(net[iface][8]).value)
  {
    if iface !in net then Ok((0, 0))
    else
      var fields := net[iface];
      if |fields| == 0 then Err(MissingField(0))
      else match ParseInt(fields[0])
        case None => Err(NotANumber(fields[0]))
        case Some(bytesIn) =>
          if |fields| <= 8 then Err(MissingField(8))
          else match ParseInt(fields[8])
            case None => Err(NotANumber(fields[8]))
            case Some(bytesOut) => Ok((bytesIn, bytesOut))
  }

  /** get_traffic(iface) of the GTK monitor: reads the table afresh, then looks up. */
  method GetTraffic(lines: seq<string>, iface: string) returns (r: Result<(int, int), Error>)
    ensures Table(Rows(lines)).Err? ==> r == Err(Table(Rows(lines)).error)
    ensures Table(Rows(lines)).Ok? ==> r == TrafficOf(Table(Rows(lines)).value, iface)
  {
    var net := ReadNet(lines);
    if net.Err? {
      return Err(net.error);
    }
    r := TrafficOf(net.value, iface);
  }

  /**
   * Monitor.get_traffic(iface, net) of src/monitor.py. A missing or empty
   * `net` falls back to the stored `self.net` (`stored`); when that is
   * empty too, readnet() runs but its table is dropped, so only its failure
   * is visible and the lookup is done in the empty table.
   */
  method StoredTraffic(stored: NetTable, net: NetTable, lines: seq<string>, iface: string)
    returns (r: Result<(int, int), Error>)
    ensures net != map[] ==> r == TrafficOf(net, iface)
    ensures net == map[] && stored != map[] ==> r == TrafficOf(stored, iface)
    ensures net == map[] && stored == map[] ==>
      r == if Table(Rows(lines)).Err? then Err(Table(Rows(lines)).error) else Ok((0, 0))
  {
    var table := net;
    if table == map[] {
      if stored == map[] {
        var dropped := ReadNet(lines);
        if dropped.Err? {
          return Err(dropped.error);
        }
      }
      table := stored;
    }
    r := TrafficOf(table, iface);
  }

  /** Counters written in decimal into fields 0 and 8 are what the lookup returns. */
  lemma TrafficOfCounters(net: NetTable, iface: string, bytesIn: int, bytesOut: int)
    requires iface in net && |net[iface]| > 8
    requires net[iface][0] == FormatInt(bytesIn) && net[iface][8] == FormatInt(bytesOut)
    ensures TrafficOf(net, iface) == Ok((bytesIn, bytesOut))
  {
    ParseFormatInt(bytesIn);
    ParseFormatInt(bytesOut);
  }

  /**
   * End to end: a file of two header lines and one line of the file whose
   * fields 0 and 8 hold the counters reads back as those counters.
   */
  lemma ReadBackCounters(header: seq<string>, indent: string, name: string, lead: string,
                         fields: seq<string>, seps: seq<string>, bytesIn: nat, bytesOut: nat)
    requires |header| == 2
    requires IsBlank(indent) && IsBlank(lead)
    requires IsWord(name) && ':' !in name
    requires |fields| > 8 && fields[0] == Decimal(bytesIn) && fields[8] == Decimal(bytesOut)
    requires |fields| == |seps| + 1
    requires forall k :: 0 <= k < |fields| ==> IsWord(fields[k]) && ':' !in fields[k]
    requires forall k :: 0 <= k < |seps| ==> IsSeparator(seps[k])
    ensures Table(Rows(header + [FormatRow(indent, name, lead, fields, seps)])) == Ok(map[name := fields])
    ensures TrafficOf(map[name := fields], name) == Ok((bytesIn, bytesOut))
  {
    var row := FormatRow(indent, name, lead, fields, seps);
    var rows := Rows(header + [row]);
    assert rows == [row];
    EntryOfRow(indent, name, lead, fields, seps);
    assert rows[..0] == [];
    assert Fill(rows[..0], Entry) == Ok(map[]);
    TrafficOfCounters(map[name := fields], name, bytesIn, bytesOut);
  }
}
