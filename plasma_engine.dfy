/**
 * The Plasma data engine's variant of the tick (NetMonitorDataEngine in
 * plasma/datasource/contents/code/main.py). On each request for one
 * interface it reads the counters, advances that interface's stored
 * counters and totals with the same first-measure and 2**32 rules as the
 * GTK monitor, plus a gate for a device that no longer exists, computes a
 * link-quality percentage, and publishes the values through setData.
 * It keeps no history. The table comes from readnet() (ProcNetDev.ReadNet
 * on the lines of /proc/net/dev); everything else it obtains from the
 * system (the counter triple, the wireless statistics, status, uptime,
 * addresses and the wireless details) arrives as a parameter.
 */
module PlasmaEngine {
  import opened Wrappers
  import opened PyText
  import opened ProcNetDev
  import Sampler

  /** The payload of a QVariant handed to setData: an int, a string, or None. */
  datatype Value = Number(n: int) | Text(s: string) | NoValue

  /** What self.ifaces keeps for one interface between requests. */
  datatype Counters = Counters(
    dataIn: int, dataOut: int,    // the last raw counter readings
    totalIn: int, totalOut: int,  // bytes accumulated since the engine started
    maxQuality: Option<int>)      // the "max_quality" key, when the entry has one

  /** An entry as init() creates it: all counters 0, no "max_quality" key. */
  const Fresh := Counters(0, 0, 0, 0, None)

  /** get_traffic(iface, net) of the Monitor the engine imports: (device_exists, data_in, data_out). */
  datatype Traffic = Traffic(deviceExists: bool, dataIn: int, dataOut: int)

  /** The wireless details queried for a wireless interface. */
  datatype WirelessDetails = WirelessDetails(essid: Value, mode: Value, bitrate: Value, ap: Value)

  /**
   * The answers of the other Monitor calls made during one request.
   * `wireless` is None when one of the wireless queries raised: wifi_get_mode
   * on a failed call or an unknown mode (Wireless.ModeOf), wifi_get_bitrate
   * on a short reply (Wireless.BitrateOf), or wifi_get_ap.
   */
  datatype Probe = Probe(
    status: string, uptime: string, ip: string, mac: string,
    wireless: Option<WirelessDetails>)

  /** get_traffic(iface, net) of the Monitor the engine imports; None when it raised. */
  type TrafficQuery = (string, NetTable) -> Option<Traffic>

  // ---------------------------------------------------------------------
  // The specification of one request

  /**
   * The counter triple of a request for name, or None when a call made
   * before anything is stored raises: readnet() on a malformed row,
   * get_traffic, or a wireless query of a wireless interface.
   */
  function Readings(lines: seq<string>, getTraffic: TrafficQuery, name: string, wireless: bool, p: Probe): Option<Traffic> {
    match Table(Rows(lines))
    case Err(_) => None
    case Ok(net) => if wireless && p.wireless.None? then None else getTraffic(name, net)
  }

  /**
   * The byte deltas: the stored readings are replaced by the new ones on
   * the first measure (both stored counters 0) and when the device does
   * not exist; a negative delta gets 2**32 added.
   */
  function Deltas(c: Counters, t: Traffic): (int, int) {
    var (oldIn, oldOut) :=
      if (c.dataIn == 0 && c.dataOut == 0) || !t.deviceExists then (t.dataIn, t.dataOut)
      else (c.dataIn, c.dataOut);
    (Sampler.Unwrap(t.dataIn - oldIn), Sampler.Unwrap(t.dataOut - oldOut))
  }

  /** The entry after a request: the raw readings and the grown totals. */
  function Advance(c: Counters, t: Traffic): Counters {
    var (diffIn, diffOut) := Deltas(c, t);
    c.(dataIn := t.dataIn, dataOut := t.dataOut, totalIn := c.totalIn + diffIn, totalOut := c.totalOut + diffOut)
  }

  /**
   * The link quality in percent, as "%d" renders it: link * 100.0 /
   * max_quality with its fraction dropped; 0 for an interface that is not
   * wireless, for an entry without "max_quality" and for a maximum of 0.
   */
  function Quality(wireless: bool, maxQuality: Option<int>, link: int): int {
    if !wireless then 0
    else match maxQuality
      case None => 0
      case Some(m) => if m != 0 then TruncDiv(link * 100, m) else 0
  }

  /** wifi_stats.get(iface, 0) */
  function Link(wifiStats: map<string, int>, name: string): int {
    if name in wifiStats then wifiStats[name] else 0
  }

  /** "%d%%" % quality */
  function QualityText(q: int): string {
    FormatInt(q) + "%"
  }

  /** The wireless details published: the answers for a wireless interface, None otherwise. */
  function Details(p: Probe, wireless: bool): WirelessDetails {
    if wireless && p.wireless.Some? then p.wireless.value else WirelessDetails(NoValue, NoValue, NoValue, NoValue)
  }

  /**
   * The setData calls of one request, in order: the four counter keys (all
   * given data_in, as written) followed by the nine items of the loop.
   */
  function Items(t: Traffic, p: Probe, wireless: bool, quality: int): seq<(string, Value)> {
    var w := Details(p, wireless);
    var dataIn := Number(t.dataIn);
    [("data_in", dataIn), ("data_out", dataIn), ("total_in", dataIn), ("total_out", dataIn),
     ("ip_address", Text(p.ip)), ("status", Text(p.status)), ("hw_address", Text(p.mac)),
     ("essid", w.essid), ("mode", w.mode), ("bitrate", w.bitrate), ("ap", w.ap),
     ("quality", Text(QualityText(quality))), ("widget_uptime", Text(p.uptime))]
  }

  /**
   * A source's data after setting the first n (key, value) pairs in turn;
   * a later key replaces an earlier one.
   */
  function Assign(row: map<string, Value>, items: seq<(string, Value)>, n: nat): map<string, Value>
    requires n <= |items|
  {
    if n == 0 then row
    else Assign(row, items, n - 1)[items[n - 1].0 := items[n - 1].1]
  }

  /** The source's data as it stands before a request (an unknown source has none). */
  function Row(data: map<string, map<string, Value>>, name: string): map<string, Value> {
    if name in data then data[name] else map[]
  }

  // ---------------------------------------------------------------------
  // The steps of a request

  /** Lines 115-131 and 136-139: the new entry after a request. */
  method CountTraffic(c: Counters, t: Traffic) returns (next: Counters)
    ensures next == Advance(c, t)
  {
    var oldIn, oldOut := c.dataIn, c.dataOut;
    var totalIn, totalOut := c.totalIn, c.totalOut;
    // is it the first measure?
    if oldIn == 0 && oldOut == 0 {
      oldIn, oldOut := t.dataIn, t.dataOut;
    }
    // check if device exists
    if !t.deviceExists {
      oldIn, oldOut := t.dataIn, t.dataOut;
    }
    var diffIn, diffOut := t.dataIn - oldIn, t.dataOut - oldOut;
    // checking for 32bits overflow
    if diffIn < 0 {
      diffIn := diffIn + Sampler.COUNTER_WRAP;
    }
    if diffOut < 0 {
      diffOut := diffOut + Sampler.COUNTER_WRAP;
    }
    totalIn, totalOut := totalIn + diffIn, totalOut + diffOut;
    next := c.(dataIn := t.dataIn, dataOut := t.dataOut, totalIn := totalIn, totalOut := totalOut);
  }

  /** The link quality of a wireless interface, from its entry's "max_quality". */
  method LinkQuality(maxQuality: Option<int>, link: int) returns (quality: int)
    ensures quality == Quality(true, maxQuality, link)
  {
    // calculate link quality
    if maxQuality.Some? {
      var m := maxQuality.value;
      if m != 0 {
        quality := TruncDiv(link * 100, m);
      } else {
        quality := 0;
      }
    } else {
      quality := 0;
    }
  }

  // ---------------------------------------------------------------------
  // The engine

  class DataEngine {
    /** self.ifaces: the stored counters of every interface readnet() listed. */
    var ifaces: map<string, Counters>
    /** self.wireless_ifaces */
    const wirelessIfaces: set<string>
    /** The data the engine has published, source by source (Plasma's setData store). */
    var data: map<string, map<string, Value>>

    /** init(): every listed interface starts with a fresh entry; the wireless ones are remembered. */
    constructor (names: set<string>, hasWireless: string -> bool)
      ensures ifaces.Keys == names && data == map[]
      ensures forall n :: n in ifaces ==> ifaces[n] == Fresh
      ensures forall n :: n in wirelessIfaces <==> n in names && hasWireless(n)
    {
      wirelessIfaces := set n | n in names && hasWireless(n);
      ifaces := map n | n in names :: Fresh;
      data := map[];
    }

    /** setData(source, key, value) */
    method SetData(source: string, key: string, value: Value)
      modifies this
      ensures ifaces == old(ifaces)
      ensures data == old(data)[source := Row(old(data), source)[key := value]]
    {
      var row := if source in data then data[source] else map[];
      data := data[source := row[key := value]];
    }

    /** setData(source, key, value) for each pair in turn. */
    method SetAll(source: string, items: seq<(string, Value)>)
      modifies this
      ensures ifaces == old(ifaces)
      ensures data == if items == [] then old(data) else old(data)[source := Assign(Row(old(data), source), items, |items|)]
    {
      ghost var row := Row(data, source);
      ghost var before := data;
      var i := 0;
      while i < |items|
        invariant 0 <= i <= |items|
        invariant ifaces == old(ifaces)
        invariant data == if i == 0 then before else before[source := Assign(row, items, i)]
      {
        SetData(source, items[i].0, items[i].1);
        i := i + 1;
      }
    }

    /**
     * updateSourceEvent(name): `lines` is what readnet() reads from
     * /proc/net/dev. A malformed table, an unknown name (KeyError), a
     * failing get_traffic or a failing wireless query raises before anything
     * is stored (false here); otherwise the entry advances and the thirteen
     * values are published.
     */
    method UpdateSourceEvent(name: string, lines: seq<string>, getTraffic: TrafficQuery,
                             wifiStats: map<string, int>, p: Probe) returns (ok: bool)
      modifies this
      ensures ok <==> name in old(ifaces) && Readings(lines, getTraffic, name, name in wirelessIfaces, p).Some?
      ensures !ok ==> ifaces == old(ifaces) && data == old(data)
      ensures ifaces.Keys == old(ifaces).Keys
      ensures forall n :: n in ifaces ==> ifaces[n].maxQuality == old(ifaces)[n].maxQuality
      ensures ok ==>
        var t := Readings(lines, getTraffic, name, name in wirelessIfaces, p).value;
        ifaces == old(ifaces)[name := Advance(old(ifaces)[name], t)]
      ensures ok ==>
        var t := Readings(lines, getTraffic, name, name in wirelessIfaces, p).value;
        var q := Quality(name in wirelessIfaces, old(ifaces)[name].maxQuality, Link(wifiStats, name));
        data == old(data)[name := Publish(Row(old(data), name), t, p, name in wirelessIfaces, q)]
    {
      var net := ReadNet(lines);
      if net.Err? {
        return false;
      }
      if name !in ifaces {
        return false;
      }
      var entry := ifaces[name];
      var traffic := getTraffic(name, net.value);
      if traffic.None? {
        return false;
      }
      // is it a wireless interface?
      var quality: int;
      if name in wirelessIfaces {
        if p.wireless.None? {
          return false;
        }
        var link := if name in wifiStats then wifiStats[name] else 0;
        quality := LinkQuality(entry.maxQuality, link);
      } else {
        quality := 0;
      }
      // update saved values
      var next := CountTraffic(entry, traffic.value);
      ifaces := ifaces[name := next];
      // now set the applet data
      ghost var row := Row(data, name);
      SetAll(name, Items(traffic.value, p, name in wirelessIfaces, quality));
      AssignIsPublish(row, traffic.value, p, name in wirelessIfaces, quality);
      return true;
    }
  }

  // ---------------------------------------------------------------------
  // Properties

  /**
   * A /proc/net/dev row without a colon makes readnet() raise, so every
   * request fails and, by UpdateSourceEvent, changes nothing.
   */
  lemma RowWithoutColonRaises(lines: seq<string>, getTraffic: TrafficQuery, name: string, wireless: bool,
                              p: Probe, k: nat)
    requires k < |Rows(lines)| && ':' !in Rows(lines)[k]
    ensures Readings(lines, getTraffic, name, wireless, p) == None
  {
    var rows := Rows(lines);
    SplitColonCounts(rows[k]);
    assert Entry(rows[k]).None?;
    FillOk(rows, Entry);
  }

  /**
   * No code of the engine stores "max_quality": init() creates every entry
   * without it and a request keeps it as it was (UpdateSourceEvent). So
   * every interface, wireless or not, publishes the quality "0%".
   */
  lemma QualityWithoutMaximum(wireless: bool, link: int)
    ensures Quality(wireless, None, link) == 0
    ensures QualityText(Quality(wireless, None, link)) == "0%"
  {
    assert Decimal(0) == "0";
  }

  /** The first measure and a missing device both count nothing: the totals stay. */
  lemma QuietRequests(c: Counters, t: Traffic)
    requires (c.dataIn == 0 && c.dataOut == 0) || !t.deviceExists
    ensures Deltas(c, t) == (0, 0)
    ensures Advance(c, t).totalIn == c.totalIn && Advance(c, t).totalOut == c.totalOut
  {
  }

  /**
   * A request stores the raw readings, grows the totals by the corrected
   * deltas and keeps "max_quality"; between 32-bit readings each delta is
   * the counter distance, in [0, 2**32), so the totals never decrease.
   */
  lemma AdvanceCounts(c: Counters, t: Traffic)
    requires Sampler.IsCounter(c.dataIn) && Sampler.IsCounter(c.dataOut)
    requires Sampler.IsCounter(t.dataIn) && Sampler.IsCounter(t.dataOut)
    ensures var a := Advance(c, t);
      a.dataIn == t.dataIn && a.dataOut == t.dataOut && a.maxQuality == c.maxQuality &&
      c.totalIn <= a.totalIn < c.totalIn + Sampler.COUNTER_WRAP &&
      c.totalOut <= a.totalOut < c.totalOut + Sampler.COUNTER_WRAP
    ensures t.deviceExists && !(c.dataIn == 0 && c.dataOut == 0) ==>
      (c.dataIn + Deltas(c, t).0) % Sampler.COUNTER_WRAP == t.dataIn &&
      (c.dataOut + Deltas(c, t).1) % Sampler.COUNTER_WRAP == t.dataOut
  {
    Sampler.UnwrapIsCounterDistance(c.dataIn, t.dataIn, 0);
    Sampler.UnwrapIsCounterDistance(c.dataOut, t.dataOut, 0);
  }

  /**
   * For a device that exists the data engine counts exactly what a tick of
   * the GTK monitor counts from the same stored values and readings.
   */
  lemma SameCountsAsMonitor(c: Counters, t: Traffic, s: Sampler.Sample, interval: int)
    requires interval != 0 && t.deviceExists
    requires s.dataIn == c.dataIn && s.dataOut == c.dataOut
    requires s.totalIn == c.totalIn && s.totalOut == c.totalOut
    ensures var next := Sampler.Step(s, t.dataIn, t.dataOut, interval).0;
      var a := Advance(c, t);
      a.dataIn == next.dataIn && a.dataOut == next.dataOut &&
      a.totalIn == next.totalIn && a.totalOut == next.totalOut
  {
  }

  /**
   * The quality guards: 0 for an interface that is not wireless, without
   * "max_quality" or with a maximum of 0; a link between 0 and the maximum
   * gives a percentage between 0 and 100, the floor of link * 100 / max.
   */
  lemma QualityRange(wireless: bool, maxQuality: Option<int>, link: int)
    ensures !wireless || maxQuality == None || maxQuality == Some(0) ==> Quality(wireless, maxQuality, link) == 0
    ensures wireless && maxQuality.Some? && 0 <= link <= maxQuality.value && maxQuality.value > 0 ==>
      var q := Quality(wireless, maxQuality, link);
      0 <= q <= 100 && maxQuality.value * q <= link * 100 < maxQuality.value * (q + 1)
  {
    if wireless && maxQuality.Some? && 0 <= link <= maxQuality.value && maxQuality.value > 0 {
      var m := maxQuality.value;
      TruncDivNonNegative(link * 100, m);
      var q := TruncDiv(link * 100, m);
      assert m * q <= link * 100 <= m * 100 by {
        Sampler.ProductSign(m - link, 100);
      }
      QuotientAtMost(m, q, 100);
    }
  }

  /** m * q <= m * k with m > 0 bounds q by k. */
  lemma QuotientAtMost(m: int, q: int, k: int)
    requires m > 0 && m * q <= m * k
    ensures q <= k
  {
    Sampler.ProductSign(m, q - k - 1);
    assert m * (q - k - 1) == m * q - m * k - m;
  }

  /** The published quality text reads back, through int(), as the percentage. */
  lemma QualityTextReadsBack(q: int)
    ensures var text := QualityText(q);
      |text| > 1 && text[|text| - 1] == '%' && ParseInt(text[..|text| - 1]) == Some(q)
  {
    var text := QualityText(q);
    assert text[..|text| - 1] == FormatInt(q);
    ParseFormatInt(q);
  }

  /**
   * The same thirteen setData calls written out as one chain of updates of
   * the source's data, in call order.
   */
  function Publish(row: map<string, Value>, t: Traffic, p: Probe, wireless: bool, quality: int): map<string, Value> {
    var w := Details(p, wireless);
    var dataIn := Number(t.dataIn);
    row["data_in" := dataIn]["data_out" := dataIn]["total_in" := dataIn]["total_out" := dataIn]
       ["ip_address" := Text(p.ip)]["status" := Text(p.status)]["hw_address" := Text(p.mac)]
       ["essid" := w.essid]["mode" := w.mode]["bitrate" := w.bitrate]["ap" := w.ap]
       ["quality" := Text(QualityText(quality))]["widget_uptime" := Text(p.uptime)]
  }

  /** The loop of setData calls publishes exactly the chain of updates. */
  lemma AssignIsPublish(row: map<string, Value>, t: Traffic, p: Probe, wireless: bool, quality: int)
    ensures Assign(row, Items(t, p, wireless, quality), 13) == Publish(row, t, p, wireless, quality)
  {
    var items := Items(t, p, wireless, quality);
    assert Assign(row, items, 1) == Assign(row, items, 0)[items[0].0 := items[0].1];
    assert Assign(row, items, 2) == Assign(row, items, 1)[items[1].0 := items[1].1];
    assert Assign(row, items, 3) == Assign(row, items, 2)[items[2].0 := items[2].1];
    assert Assign(row, items, 4) == Assign(row, items, 3)[items[3].0 := items[3].1];
    assert Assign(row, items, 5) == Assign(row, items, 4)[items[4].0 := items[4].1];
    assert Assign(row, items, 6) == Assign(row, items, 5)[items[5].0 := items[5].1];
    assert Assign(row, items, 7) == Assign(row, items, 6)[items[6].0 := items[6].1];
    assert Assign(row, items, 8) == Assign(row, items, 7)[items[7].0 := items[7].1];
    assert Assign(row, items, 9) == Assign(row, items, 8)[items[8].0 := items[8].1];
    assert Assign(row, items, 10) == Assign(row, items, 9)[items[9].0 := items[9].1];
    assert Assign(row, items, 11) == Assign(row, items, 10)[items[10].0 := items[10].1];
    assert Assign(row, items, 12) == Assign(row, items, 11)[items[11].0 := items[11].1];
    assert Assign(row, items, 13) == Assign(row, items, 12)[items[12].0 := items[12].1];
  }

  /**
   * The four counter keys all publish data_in, as written: data_out,
   * total_in and total_out never show their own values.
   */
  lemma PublishedCounters(row: map<string, Value>, t: Traffic, p: Probe, wireless: bool, quality: int)
    ensures var r := Publish(row, t, p, wireless, quality);
      r["data_in"] == r["data_out"] == r["total_in"] == r["total_out"] == Number(t.dataIn)
  {
  }

  /**
   * The other nine keys: the addresses, status and uptime; the wireless
   * details of a wireless interface whose queries answered, or None for an
   * interface that is not wireless; the quality text.
   */
  lemma PublishedDetails(row: map<string, Value>, t: Traffic, p: Probe, wireless: bool, quality: int)
    requires wireless ==> p.wireless.Some?
    ensures var r := Publish(row, t, p, wireless, quality);
      r["ip_address"] == Text(p.ip) && r["hw_address"] == Text(p.mac) &&
      r["status"] == Text(p.status) && r["widget_uptime"] == Text(p.uptime) &&
      r["quality"] == Text(QualityText(quality)) &&
      r["essid"] == (if wireless then p.wireless.value.essid else NoValue) &&
      r["mode"] == (if wireless then p.wireless.value.mode else NoValue) &&
      r["bitrate"] == (if wireless then p.wireless.value.bitrate else NoValue) &&
      r["ap"] == (if wireless then p.wireless.value.ap else NoValue)
  {
  }

  /** Keys a request does not publish keep their earlier values. */
  lemma PublishKeepsOtherKeys(row: map<string, Value>, t: Traffic, p: Probe, wireless: bool, quality: int, key: string)
    requires key !in ItemKeys
    ensures key in Publish(row, t, p, wireless, quality) <==> key in row
    ensures key in row ==> Publish(row, t, p, wireless, quality)[key] == row[key]
  {
  }

  /** The thirteen keys a request publishes. */
  const ItemKeys: set<string> := {"data_in", "data_out", "total_in", "total_out", "ip_address", "status",
    "hw_address", "essid", "mode", "bitrate", "ap", "quality", "widget_uptime"}
}
