/**
 * What `parse_html` promises, stated against independent descriptions of
 * the page: which rows a location accepts, what each field ends up holding,
 * and how locations combine into the result.
 */
module HtmlProperties {
  import opened Wrappers
  import opened Ipv4
  import opened DataCenters
  import opened Html

  // ----- "Available Services" -----

  /** Every link that has a `title` names a service of the closed vocabulary. */
  predicate AllTitlesKnown(links: seq<Link>) {
    forall i :: 0 <= i < |links| && links[i].title.Some? ==> ServiceFromTitle(links[i].title.value).Some?
  }

  /** The service a link names, or nothing for a link without a known title. */
  function LinkService(link: Link): seq<AvailableService> {
    if link.title.Some? && ServiceFromTitle(link.title.value).Some?
    then [ServiceFromTitle(link.title.value).value]
    else []
  }

  /** The services named by the titled links, in link order. */
  function TitledServices(links: seq<Link>): seq<AvailableService> {
    if links == [] then [] else LinkService(links[0]) + TitledServices(links[1..])
  }

  lemma {:induction false} TitledServicesAppend(links: seq<Link>, link: Link)
    ensures TitledServices(links + [link]) == TitledServices(links) + LinkService(link)
  {
    if links != [] {
      assert (links + [link])[1..] == links[1..] + [link];
      TitledServicesAppend(links[1..], link);
    } else {
      assert [link][1..] == [];
    }
  }

  /**
   * The links of a value cell add, in order, the service of each titled
   * link; links without a title are skipped; any unknown title fails.
   */
  lemma {:induction false} CollectServicesSpec(acc: seq<AvailableService>, links: seq<Link>)
    ensures CollectServices(acc, links) ==
            if AllTitlesKnown(links) then Ok(acc + TitledServices(links)) else Err(AvailableServiceUnknown)
    decreases |links|
  {
    if links != [] {
      var n := |links|;
      var prefix, last := links[..n - 1], links[n - 1];
      assert links == prefix + [last];
      CollectServicesSpec(acc, prefix);
      TitledServicesAppend(prefix, last);
      var lastKnown := last.title.Some? ==> ServiceFromTitle(last.title.value).Some?;
      assert AllTitlesKnown(links) <==> AllTitlesKnown(prefix) && lastKnown by {
        assert forall i :: 0 <= i < n - 1 ==> links[i] == prefix[i];
      }
      if AllTitlesKnown(prefix) {
        var s := acc + TitledServices(prefix);
        assert CollectServices(acc, links) == ServiceStep(s, last);
        if last.title.Some? && ServiceFromTitle(last.title.value).Some? {
          assert ServiceStep(s, last) == Ok(s + LinkService(last));
          assert s + LinkService(last) == acc + (TitledServices(prefix) + LinkService(last));
        } else if last.title.None? {
          assert LinkService(last) == [] && TitledServices(prefix) + [] == TitledServices(prefix);
        } else {
          assert !AllTitlesKnown(links);
        }
      }
    } else {
      assert acc + [] == acc;
    }
  }

  lemma ServicesInLinkOrder()
    ensures CollectServices([], [Link(Some("Bare Metal Servers"), None), Link(Some("Virtual Servers"), None)])
            == Ok([BareMetalServers, VirtualServers])
  {
    var links := [Link(Some("Bare Metal Servers"), None), Link(Some("Virtual Servers"), None)];
    CollectServicesSpec([], links);
    assert AllTitlesKnown(links);
    assert links[1..] == [links[1]] && links[1..][1..] == [];
    assert TitledServices(links[1..][1..]) == [];
    assert TitledServices(links) == [BareMetalServers, VirtualServers];
    assert CollectServices([], links) == Ok([] + TitledServices(links));
    assert [] + TitledServices(links) == [BareMetalServers, VirtualServers];
    assert CollectServices([], links) == Ok([BareMetalServers, VirtualServers]);
  }

  // ----- What one row writes -----

  function Heading(row: Row): Label
    requires |row| == 3
  {
    LabelOf(row[0].innerHtml)
  }

  /** The services an "Available Services" row names. */
  function ServicesListed(row: Row): seq<AvailableService> {
    if |row| == 3 && Heading(row) == AvailableServices then TitledServices(row[2].links) else []
  }

  /** The text a "Standard Bare Metal Bandwidth" row stores: its value, when not empty. */
  function BandwidthWritten(row: Row): Option<string> {
    if |row| == 3 && Heading(row) == StandardBareMetalBandwidth && row[2].innerHtml != ""
    then Some(row[2].innerHtml)
    else None
  }

  /** The text a "Ping/Trace Route" row reads as an address: its value, unless "-" or empty. */
  function PingWritten(row: Row): Option<string> {
    if |row| == 3 && Heading(row) == PingTraceRoute && row[2].innerHtml != "-" && row[2].innerHtml != ""
    then Some(row[2].innerHtml)
    else None
  }

  /** The address a "Ping/Trace Route" row stores: its value read as an address, unless "-" or empty. */
  function PingAddress(row: Row): Option<Ipv4Addr> {
    if PingWritten(row).Some? then ParseIpv4(PingWritten(row).value) else None
  }

  /** The link a "Test Download" row stores: the first link's `href`, when the value is not empty. */
  function TestDownloadWritten(row: Row): Option<string> {
    if |row| == 3 && Heading(row) == TestDownload && row[2].innerHtml != ""
    then FirstHref(row[2].links)
    else None
  }

  /** A row the extractor accepts: three cells, known service titles, a readable ping address. */
  predicate RowAccepted(row: Row) {
    && |row| == 3
    && (Heading(row) == AvailableServices ==> AllTitlesKnown(row[2].links))
    && (PingWritten(row).Some? ==> ParseIpv4(PingWritten(row).value).Some?)
  }

  /** The error a rejected row raises. */
  function RowError(row: Row): ParseHtmlError
    requires !RowAccepted(row)
  {
    if |row| != 3 then AttrElementInvalid
    else if Heading(row) == AvailableServices && !AllTitlesKnown(row[2].links) then AvailableServiceUnknown
    else PingInvalid(row[2].innerHtml)
  }

  /** A row succeeds exactly when it is accepted, whatever came before. */
  lemma ApplyRowOk(f: Accumulators, row: Row)
    ensures ApplyRow(f, row).Ok? <==> RowAccepted(row)
  {
    if |row| == 3 && Heading(row) == AvailableServices {
      CollectServicesSpec(f.availableServices, row[2].links);
    }
  }

  /** A rejected row fails with its own error, whatever came before. */
  lemma ApplyRowRejected(f: Accumulators, row: Row)
    requires !RowAccepted(row)
    ensures ApplyRow(f, row) == Err(RowError(row))
  {
    if |row| == 3 && Heading(row) == AvailableServices {
      CollectServicesSpec(f.availableServices, row[2].links);
    }
  }

  /** An accepted row appends its services and overwrites only the fields it writes. */
  lemma ApplyRowWrites(f: Accumulators, row: Row)
    requires ApplyRow(f, row).Ok?
    ensures ApplyRow(f, row).value.availableServices == f.availableServices + ServicesListed(row)
    ensures ApplyRow(f, row).value.standardBareMetalBandwidth ==
            if BandwidthWritten(row).Some? then BandwidthWritten(row) else f.standardBareMetalBandwidth
    ensures ApplyRow(f, row).value.ping ==
            if PingWritten(row).Some? then ParseIpv4(PingWritten(row).value) else f.ping
    ensures ApplyRow(f, row).value.testDownload ==
            if TestDownloadWritten(row).Some? then TestDownloadWritten(row) else f.testDownload
  {
    if Heading(row) == AvailableServices {
      CollectServicesSpec(f.availableServices, row[2].links);
    }
  }

  // `ApplyRowWrites` one field at a time, to keep the proofs over many rows small.

  lemma ApplyRowBandwidth(f: Accumulators, row: Row)
    requires ApplyRow(f, row).Ok?
    ensures ApplyRow(f, row).value.standardBareMetalBandwidth ==
            if BandwidthWritten(row).Some? then BandwidthWritten(row) else f.standardBareMetalBandwidth
  {
    ApplyRowWrites(f, row);
  }

  lemma ApplyRowPing(f: Accumulators, row: Row)
    requires ApplyRow(f, row).Ok?
    ensures ApplyRow(f, row).value.ping == if PingAddress(row).Some? then PingAddress(row) else f.ping
  {
    ApplyRowWrites(f, row);
    ApplyRowOk(f, row);
  }

  lemma ApplyRowTestDownload(f: Accumulators, row: Row)
    requires ApplyRow(f, row).Ok?
    ensures ApplyRow(f, row).value.testDownload ==
            if TestDownloadWritten(row).Some? then TestDownloadWritten(row) else f.testDownload
  {
    ApplyRowWrites(f, row);
  }

  /** The services part of `ApplyRowWrites`, on its own. */
  lemma ApplyRowServices(f: Accumulators, row: Row)
    requires ApplyRow(f, row).Ok?
    ensures ApplyRow(f, row).value.availableServices == f.availableServices + ServicesListed(row)
  {
    ApplyRowWrites(f, row);
  }

  /**
   * A "Ping/Trace Route" row: "-" and "" leave the ping alone, the dotted
   * text of an address stores that address, any other text fails with
   * `PingInvalid` carrying that text.
   */
  lemma PingRow(f: Accumulators, row: Row)
    requires |row| == 3 && Heading(row) == PingTraceRoute
    ensures row[2].innerHtml == "-" || row[2].innerHtml == "" ==> ApplyRow(f, row) == Ok(f)
    ensures forall addr :: row[2].innerHtml == Ipv4Text(addr) ==> ApplyRow(f, row) == Ok(f.(ping := Some(addr)))
    ensures row[2].innerHtml != "-" && row[2].innerHtml != "" &&
            (forall addr :: row[2].innerHtml != Ipv4Text(addr)) ==>
              ApplyRow(f, row) == Err(PingInvalid(row[2].innerHtml))
  {
    var v := row[2].innerHtml;
    forall addr | v == Ipv4Text(addr) ensures ApplyRow(f, row) == Ok(f.(ping := Some(addr))) {
      ParseIpv4Canonical(v, addr);
    }
    if ParseIpv4(v).Some? {
      ParseIpv4Canonical(v, ParseIpv4(v).value);
    }
  }

  // ----- Across the rows of one location -----

  /** The rows are accepted as a whole exactly when every row is accepted. */
  lemma {:induction false} ApplyRowsAccepted(f: Accumulators, rows: seq<Row>)
    ensures ApplyRows(f, rows).Ok? <==> forall k :: 0 <= k < |rows| ==> RowAccepted(rows[k])
    decreases |rows|
  {
    if rows != [] {
      var prefix, last := rows[..|rows| - 1], rows[|rows| - 1];
      ApplyRowsAccepted(f, prefix);
      AllAcceptedSnoc(rows, prefix);
      if ApplyRows(f, prefix).Ok? {
        ApplyRowOk(ApplyRows(f, prefix).value, last);
      }
    }
  }

  lemma AllAcceptedSnoc(rows: seq<Row>, prefix: seq<Row>)
    requires rows != [] && prefix == rows[..|rows| - 1]
    ensures (forall k :: 0 <= k < |rows| ==> RowAccepted(rows[k])) <==>
            (forall k :: 0 <= k < |prefix| ==> RowAccepted(prefix[k])) && RowAccepted(rows[|rows| - 1])
  {
    assert forall k :: 0 <= k < |prefix| ==> prefix[k] == rows[k];
  }


  /** The first rejected row decides the error; rows after it are never looked at. */
  lemma ApplyRowsFirstError(f: Accumulators, rows: seq<Row>, k: nat)
    requires k < |rows| && !RowAccepted(rows[k])
    requires forall m :: 0 <= m < k ==> RowAccepted(rows[m])
    ensures ApplyRows(f, rows) == Err(RowError(rows[k]))
  {
    var prefix := rows[..k];
    AcceptedPrefix(f, rows, k);
    ApplyRowsAppend(f, prefix, rows[k]);
    ApplyRowRejected(ApplyRows(f, prefix).value, rows[k]);
    assert rows[..k + 1] == prefix + [rows[k]];
    ApplyRowsErrPersists(f, rows, k + 1);
  }

  /** Rows that are all accepted succeed. */
  lemma AcceptedPrefix(f: Accumulators, rows: seq<Row>, k: nat)
    requires k <= |rows| && forall m :: 0 <= m < k ==> RowAccepted(rows[m])
    ensures ApplyRows(f, rows[..k]).Ok?
  {
    var prefix := rows[..k];
    assert forall m :: 0 <= m < k ==> prefix[m] == rows[m];
    ApplyRowsAccepted(f, prefix);
  }

  /** One more row after rows that succeeded is applied to their result. */
  lemma ApplyRowsAppend(f: Accumulators, prefix: seq<Row>, row: Row)
    requires ApplyRows(f, prefix).Ok?
    ensures ApplyRows(f, prefix + [row]) == ApplyRow(ApplyRows(f, prefix).value, row)
  {
    assert (prefix + [row])[..|prefix|] == prefix;
  }


  /** The services of all "Available Services" rows, in row order. */
  function RowsServices(rows: seq<Row>): seq<AvailableService> {
    if rows == [] then [] else RowsServices(rows[..|rows| - 1]) + ServicesListed(rows[|rows| - 1])
  }

  /** Services accumulate across rows: nothing is dropped, reordered or overwritten. */
  lemma {:induction false} ServicesAccumulate(f: Accumulators, rows: seq<Row>)
    requires ApplyRows(f, rows).Ok?
    ensures ApplyRows(f, rows).value.availableServices == f.availableServices + RowsServices(rows)
    decreases |rows|
  {
    if rows != [] {
      var prefix, last := rows[..|rows| - 1], rows[|rows| - 1];
      assert rows == prefix + [last];
      ApplyRowsSnoc(f, prefix, last);
      ServicesAccumulate(f, prefix);
      ServicesStep(f, prefix, last);
    } else {
      assert f.availableServices + [] == f.availableServices;
    }
  }

  /** Rows that succeed with one more row appended: the shorter rows succeed, and the last row is applied to their result. */
  lemma ApplyRowsSnoc(f: Accumulators, prefix: seq<Row>, last: Row)
    requires ApplyRows(f, prefix + [last]).Ok?
    ensures ApplyRows(f, prefix).Ok?
    ensures ApplyRows(f, prefix + [last]) == ApplyRow(ApplyRows(f, prefix).value, last)
  {
    var rows := prefix + [last];
    assert rows[..|rows| - 1] == prefix && rows[|rows| - 1] == last;
  }

  /** The step of `ServicesAccumulate`: one more row after the others. */
  lemma ServicesStep(f: Accumulators, prefix: seq<Row>, last: Row)
    requires ApplyRows(f, prefix + [last]).Ok?
    requires ApplyRows(f, prefix).Ok?
    requires ApplyRows(f, prefix).value.availableServices == f.availableServices + RowsServices(prefix)
    ensures ApplyRows(f, prefix + [last]).value.availableServices == f.availableServices + RowsServices(prefix + [last])
  {
    var rows := prefix + [last];
    ApplyRowsSnoc(f, prefix, last);
    var h := ApplyRows(f, prefix).value;
    assert rows[..|rows| - 1] == prefix && rows[|rows| - 1] == last;
    var before, listed := RowsServices(prefix), ServicesListed(last);
    assert RowsServices(rows) == before + listed;
    ApplyRowAppendsServices(f.availableServices + before, h, last);
    AppendAssociative(f.availableServices, before, listed);
  }

  lemma ApplyRowAppendsServices(services: seq<AvailableService>, h: Accumulators, row: Row)
    requires ApplyRow(h, row).Ok? && h.availableServices == services
    ensures ApplyRow(h, row).value.availableServices == services + ServicesListed(row)
  {
    ApplyRowServices(h, row);
  }

  lemma AppendAssociative<T>(a: seq<T>, b: seq<T>, c: seq<T>)
    ensures (a + b) + c == a + (b + c)
  {
  }

  // ----- Last write wins -----

  /**
   * What the last row that writes a value (according to `written`) writes,
   * or `init` when no row does.
   */
  function LastWritten<T>(init: Option<T>, rows: seq<Row>, written: Row -> Option<T>): Option<T> {
    if rows == [] then init
    else if written(rows[|rows| - 1]).Some? then written(rows[|rows| - 1])
    else LastWritten(init, rows[..|rows| - 1], written)
  }

  /** Row `k` writes and no later row does: its value is the last one written. */
  lemma {:induction false} LastWrittenAt<T>(init: Option<T>, rows: seq<Row>, written: Row -> Option<T>, k: nat)
    requires k < |rows| && written(rows[k]).Some?
    requires forall m :: k < m < |rows| ==> written(rows[m]).None?
    ensures LastWritten(init, rows, written) == written(rows[k])
    decreases |rows|
  {
    var n := |rows|;
    if k < n - 1 {
      var prefix := rows[..n - 1];
      assert forall m :: k < m < n - 1 ==> prefix[m] == rows[m];
      assert prefix[k] == rows[k];
      LastWrittenAt(init, prefix, written, k);
    }
  }

  /** No row writes: the initial value stays. */
  lemma {:induction false} LastWrittenNone<T>(init: Option<T>, rows: seq<Row>, written: Row -> Option<T>)
    requires forall m :: 0 <= m < |rows| ==> written(rows[m]).None?
    ensures LastWritten(init, rows, written) == init
    decreases |rows|
  {
    if rows != [] {
      var prefix := rows[..|rows| - 1];
      assert forall m :: 0 <= m < |prefix| ==> prefix[m] == rows[m];
      LastWrittenNone(init, prefix, written);
    }
  }

  /** The bandwidth after the rows is the last non-empty "Standard Bare Metal Bandwidth" value. */
  lemma {:induction false} BandwidthFinal(f: Accumulators, rows: seq<Row>)
    requires ApplyRows(f, rows).Ok?
    ensures ApplyRows(f, rows).value.standardBareMetalBandwidth ==
            LastWritten(f.standardBareMetalBandwidth, rows, BandwidthWritten)
    decreases |rows|
  {
    if rows != [] {
      var prefix, last := rows[..|rows| - 1], rows[|rows| - 1];
      assert rows == prefix + [last];
      ApplyRowsSnoc(f, prefix, last);
      BandwidthFinal(f, prefix);
      ApplyRowBandwidth(ApplyRows(f, prefix).value, last);
    }
  }

  /** The ping after the rows is the address of the last "Ping/Trace Route" row that holds one. */
  lemma {:induction false} PingFinal(f: Accumulators, rows: seq<Row>)
    requires ApplyRows(f, rows).Ok?
    ensures ApplyRows(f, rows).value.ping == LastWritten(f.ping, rows, PingAddress)
    decreases |rows|
  {
    if rows != [] {
      var prefix, last := rows[..|rows| - 1], rows[|rows| - 1];
      assert rows == prefix + [last];
      ApplyRowsSnoc(f, prefix, last);
      PingFinal(f, prefix);
      ApplyRowPing(ApplyRows(f, prefix).value, last);
    }
  }

  /** The test download after the rows is the link of the last "Test Download" row that has one. */
  lemma {:induction false} TestDownloadFinal(f: Accumulators, rows: seq<Row>)
    requires ApplyRows(f, rows).Ok?
    ensures ApplyRows(f, rows).value.testDownload == LastWritten(f.testDownload, rows, TestDownloadWritten)
    decreases |rows|
  {
    if rows != [] {
      var prefix, last := rows[..|rows| - 1], rows[|rows| - 1];
      assert rows == prefix + [last];
      ApplyRowsSnoc(f, prefix, last);
      TestDownloadFinal(f, prefix);
      ApplyRowTestDownload(ApplyRows(f, prefix).value, last);
    }
  }

  /** Without a non-empty "Standard Bare Metal Bandwidth" row the bandwidth is untouched. */
  lemma {:induction false} BandwidthUntouched(f: Accumulators, rows: seq<Row>)
    requires ApplyRows(f, rows).Ok?
    requires forall k :: 0 <= k < |rows| ==> BandwidthWritten(rows[k]).None?
    ensures ApplyRows(f, rows).value.standardBareMetalBandwidth == f.standardBareMetalBandwidth
  {
    BandwidthFinal(f, rows);
    LastWrittenNone(f.standardBareMetalBandwidth, rows, BandwidthWritten);
  }

  /** The last non-empty "Standard Bare Metal Bandwidth" row wins, verbatim. */
  lemma {:induction false} BandwidthLastWins(f: Accumulators, rows: seq<Row>, k: nat)
    requires ApplyRows(f, rows).Ok?
    requires k < |rows| && BandwidthWritten(rows[k]).Some?
    requires forall m :: k < m < |rows| ==> BandwidthWritten(rows[m]).None?
    ensures ApplyRows(f, rows).value.standardBareMetalBandwidth == BandwidthWritten(rows[k])
  {
    BandwidthFinal(f, rows);
    LastWrittenAt(f.standardBareMetalBandwidth, rows, BandwidthWritten, k);
  }

  /** Without a "Ping/Trace Route" row holding an address the ping is untouched. */
  lemma {:induction false} PingUntouched(f: Accumulators, rows: seq<Row>)
    requires ApplyRows(f, rows).Ok?
    requires forall k :: 0 <= k < |rows| ==> PingWritten(rows[k]).None?
    ensures ApplyRows(f, rows).value.ping == f.ping
  {
    PingFinal(f, rows);
    LastWrittenNone(f.ping, rows, PingAddress);
  }

  /** The last "Ping/Trace Route" row holding an address wins. */
  lemma {:induction false} PingLastWins(f: Accumulators, rows: seq<Row>, k: nat)
    requires ApplyRows(f, rows).Ok?
    requires k < |rows| && PingWritten(rows[k]).Some?
    requires forall m :: k < m < |rows| ==> PingWritten(rows[m]).None?
    ensures ApplyRows(f, rows).value.ping == ParseIpv4(PingWritten(rows[k]).value)
  {
    PingFinal(f, rows);
    ApplyRowsAccepted(f, rows);
    assert RowAccepted(rows[k]);
    LastWrittenAt(f.ping, rows, PingAddress, k);
  }

  /** Without a "Test Download" row whose first link has an `href` the test download is untouched. */
  lemma {:induction false} TestDownloadUntouched(f: Accumulators, rows: seq<Row>)
    requires ApplyRows(f, rows).Ok?
    requires forall k :: 0 <= k < |rows| ==> TestDownloadWritten(rows[k]).None?
    ensures ApplyRows(f, rows).value.testDownload == f.testDownload
  {
    TestDownloadFinal(f, rows);
    LastWrittenNone(f.testDownload, rows, TestDownloadWritten);
  }

  /** A "Test Download" row never fails, whatever its value cell holds. */
  lemma TestDownloadRowAccepted(f: Accumulators, row: Row)
    requires |row| == 3 && Heading(row) == TestDownload
    ensures ApplyRow(f, row).Ok?
  {
    ApplyRowOk(f, row);
  }

  /** The last "Test Download" row whose first link has an `href` wins. */
  lemma {:induction false} TestDownloadLastWins(f: Accumulators, rows: seq<Row>, k: nat)
    requires ApplyRows(f, rows).Ok?
    requires k < |rows| && TestDownloadWritten(rows[k]).Some?
    requires forall m :: k < m < |rows| ==> TestDownloadWritten(rows[m]).None?
    ensures ApplyRows(f, rows).value.testDownload == TestDownloadWritten(rows[k])
  {
    TestDownloadFinal(f, rows);
    LastWrittenAt(f.testDownload, rows, TestDownloadWritten, k);
  }

  // ----- One location -----

  /**
   * A location yields a record exactly when it has an id, a city and only
   * accepted rows (its detail link never makes it fail); the record's
   * services are those of its rows in order, and each other field holds
   * the last value a row wrote to it.
   */
  lemma LocationAccepted(loc: Location)
    ensures ExtractLocation(loc).Ok? <==>
            loc.id.Some? && |loc.cities| > 0 && forall k :: 0 <= k < |loc.rows| ==> RowAccepted(loc.rows[k])
    ensures ExtractLocation(loc).Ok? ==>
              && ExtractLocation(loc).value.availableServices == RowsServices(loc.rows)
              && ExtractLocation(loc).value.standardBareMetalBandwidth == LastWritten(None, loc.rows, BandwidthWritten)
              && ExtractLocation(loc).value.ping == LastWritten(None, loc.rows, PingAddress)
              && ExtractLocation(loc).value.testDownload == LastWritten(None, loc.rows, TestDownloadWritten)
  {
    ApplyRowsAccepted(NoAttributes, loc.rows);
    if ExtractLocation(loc).Ok? {
      ServicesAccumulate(NoAttributes, loc.rows);
      BandwidthFinal(NoAttributes, loc.rows);
      PingFinal(NoAttributes, loc.rows);
      TestDownloadFinal(NoAttributes, loc.rows);
    }
  }

  /** A row without exactly three cells fails its location, whatever its label. */
  lemma BadShapeFailsLocation(loc: Location, k: nat)
    requires loc.id.Some? && |loc.cities| > 0
    requires k < |loc.rows| && |loc.rows[k]| != 3
    ensures ExtractLocation(loc).Err?
    ensures (forall m :: 0 <= m < k ==> RowAccepted(loc.rows[m])) ==> ExtractLocation(loc) == Err(AttrElementInvalid)
  {
    LocationAccepted(loc);
    if forall m :: 0 <= m < k ==> RowAccepted(loc.rows[m]) {
      ApplyRowsFirstError(NoAttributes, loc.rows, k);
    }
  }

  // ----- The whole document -----

  /**
   * All or nothing: the document yields records exactly when every location
   * does, and then one record per location, in order.
   */
  lemma {:induction false} ExtractAllOk(doc: Document)
    ensures ExtractAll(doc).Ok? <==> forall i :: 0 <= i < |doc| ==> ExtractLocation(doc[i]).Ok?
    ensures ExtractAll(doc).Ok? ==>
              && |ExtractAll(doc).value| == |doc|
              && forall i :: 0 <= i < |doc| ==> ExtractLocation(doc[i]) == Ok(ExtractAll(doc).value[i])
    decreases |doc|
  {
    if doc != [] {
      var n := |doc|;
      var prefix := doc[..n - 1];
      ExtractAllOk(prefix);
      assert forall i :: 0 <= i < n - 1 ==> prefix[i] == doc[i];
    }
  }

  /**
   * A page without locations yields no records; otherwise the records carry,
   * in order, each location's id and the markup of its first city.
   */
  lemma {:induction false} ExtractAllRecords(doc: Document)
    ensures doc == [] ==> ExtractAll(doc) == Ok([])
    ensures ExtractAll(doc).Ok? ==>
              && |ExtractAll(doc).value| == |doc|
              && forall i :: 0 <= i < |doc| ==>
                   && doc[i].id == Some(ExtractAll(doc).value[i].id)
                   && |doc[i].cities| > 0
                   && ExtractAll(doc).value[i].city == doc[i].cities[0]
  {
    ExtractAllOk(doc);
  }

  /** The first failing location decides the error. */
  lemma ExtractAllFirstError(doc: Document, i: nat)
    requires i < |doc| && ExtractLocation(doc[i]).Err?
    requires forall j :: 0 <= j < i ==> ExtractLocation(doc[j]).Ok?
    ensures ExtractAll(doc) == Err(ExtractLocation(doc[i]).error)
  {
    var prefix := doc[..i];
    assert forall j :: 0 <= j < i ==> prefix[j] == doc[j];
    ExtractAllOk(prefix);
    LocationFailsDocument(doc, i, ExtractAll(prefix).value);
  }

  /** Every error comes from some location, the first one that fails. */
  lemma {:induction false} ExtractAllErrorSource(doc: Document)
    requires ExtractAll(doc).Err?
    ensures exists i :: && 0 <= i < |doc|
                        && ExtractLocation(doc[i]) == Err(ExtractAll(doc).error)
                        && forall j :: 0 <= j < i ==> ExtractLocation(doc[j]).Ok?
    decreases |doc|
  {
    var n := |doc|;
    var prefix := doc[..n - 1];
    assert forall j :: 0 <= j < n - 1 ==> prefix[j] == doc[j];
    if ExtractAll(prefix).Err? {
      ExtractAllErrorSource(prefix);
      var i :| && 0 <= i < |prefix|
               && ExtractLocation(prefix[i]) == Err(ExtractAll(prefix).error)
               && forall j :: 0 <= j < i ==> ExtractLocation(prefix[j]).Ok?;
      assert ExtractLocation(doc[i]) == Err(ExtractAll(doc).error);
    } else {
      ExtractAllOk(prefix);
      assert ExtractLocation(doc[n - 1]) == Err(ExtractAll(doc).error);
    }
  }

  // ----- A London location matching the crate's test -----

  const LondonServices: Row :=
    [Cell("Available Services", []), Cell("", []),
     Cell("<a title=\"Bare Metal Servers\"></a><a title=\"Virtual Servers\"></a>",
          [Link(Some("Bare Metal Servers"), None), Link(Some("Virtual Servers"), None)])]
  const LondonNetworks: Row := [Cell("Available Networks", []), Cell("", []), Cell("", [])]
  const LondonBandwidth: Row := [Cell("Standard Bare Metal Bandwidth", []), Cell("", []), Cell("100TB", [])]
  const LondonPing: Row := [Cell("Ping/Trace Route", []), Cell("", []), Cell("82.163.78.28", [])]
  const LondonCertifications: Row := [Cell("Certifications", []), Cell("", []), Cell("", [])]
  const LondonTestDownload: Row :=
    [Cell("Test Download", []), Cell("", []),
     Cell("<a href=\"http://82.163.78.28/speedtest.256mb\">256MB</a>",
          [Link(None, Some("http://82.163.78.28/speedtest.256mb"))])]

  const LondonAddr := Ipv4Addr(82, 163, 78, 28)

  /** A London location that yields the values the crate's test expects. */
  const London := Location(
    Some("london"),
    ["London"],
    [LondonServices, LondonNetworks, LondonBandwidth, LondonPing, LondonCertifications, LondonTestDownload],
    [Link(None, Some("https://info.ingenuitycloudservices.com/us/data-center/london"))])

  lemma LondonAddress(s: string)
    requires s == "82.163.78.28"
    ensures ParseIpv4(s) == Some(LondonAddr)
  {
    assert OctetText(82) == "82" && OctetText(163) == "163";
    assert OctetText(78) == "78" && OctetText(28) == "28";
    assert Ipv4Text(LondonAddr) == s;
    ParseIpv4Canonical(s, LondonAddr);
  }

  lemma LondonServicesRow(f: Accumulators)
    ensures ApplyRow(f, LondonServices) ==
            Ok(f.(availableServices := f.availableServices + [BareMetalServers, VirtualServers]))
  {
    var links := LondonServices[2].links;
    CollectServicesSpec(f.availableServices, links);
    assert AllTitlesKnown(links);
    assert links[1..] == [links[1]] && links[1..][1..] == [];
    assert TitledServices(links[1..][1..]) == [];
    assert TitledServices(links) == [BareMetalServers, VirtualServers];
  }




  lemma LondonInertRows(f: Accumulators)
    ensures ApplyRow(f, LondonNetworks) == Ok(f)
    ensures ApplyRow(f, LondonCertifications) == Ok(f)
  {
    assert LabelOf(LondonNetworks[0].innerHtml) == AvailableNetworks;
    assert LabelOf(LondonCertifications[0].innerHtml) == Certifications;
  }

  lemma LondonBandwidthRow(f: Accumulators)
    ensures ApplyRow(f, LondonBandwidth) == Ok(f.(standardBareMetalBandwidth := Some("100TB")))
  {
    assert LabelOf(LondonBandwidth[0].innerHtml) == StandardBareMetalBandwidth;
  }

  lemma LondonTestDownloadRow(f: Accumulators)
    ensures ApplyRow(f, LondonTestDownload) == Ok(f.(testDownload := Some("http://82.163.78.28/speedtest.256mb")))
  {
    assert LabelOf(LondonTestDownload[0].innerHtml) == TestDownload;
  }

  /** One more accepted row after rows that succeeded. */
  lemma ApplyRowsStep(f: Accumulators, rows: seq<Row>, row: Row, g: Accumulators, h: Accumulators)
    requires ApplyRows(f, rows) == Ok(g) && ApplyRow(g, row) == Ok(h)
    ensures ApplyRows(f, rows + [row]) == Ok(h)
  {
    ApplyRowsAppend(f, rows, row);
  }


  // The accumulators after each prefix of the London rows.

  const AfterServices := NoAttributes.(availableServices := [BareMetalServers, VirtualServers])
  const AfterBandwidth := AfterServices.(standardBareMetalBandwidth := Some("100TB"))
  const AfterPing := AfterBandwidth.(ping := Some(LondonAddr))
  const AfterTestDownload := AfterPing.(testDownload := Some("http://82.163.78.28/speedtest.256mb"))

  lemma LondonRows(rows: seq<Row>)
    requires rows == London.rows
    ensures ApplyRows(NoAttributes, rows) == Ok(AfterTestDownload)
  {
    var r0: seq<Row> := [];
    var r1 := r0 + [LondonServices];
    var r2 := r1 + [LondonNetworks];
    var r3 := r2 + [LondonBandwidth];
    var r4 := r3 + [LondonPing];
    var r5 := r4 + [LondonCertifications];
    assert rows == r5 + [LondonTestDownload];
    LondonServicesRow(NoAttributes);
    assert NoAttributes.availableServices + [BareMetalServers, VirtualServers] == [BareMetalServers, VirtualServers];
    ApplyRowsStep(NoAttributes, r0, LondonServices, NoAttributes, AfterServices);
    LondonInertRows(AfterServices);
    ApplyRowsStep(NoAttributes, r1, LondonNetworks, AfterServices, AfterServices);
    LondonBandwidthRow(AfterServices);
    ApplyRowsStep(NoAttributes, r2, LondonBandwidth, AfterServices, AfterBandwidth);
    LondonAddress(LondonPing[2].innerHtml);
    PingAccepted(AfterBandwidth, LondonPing, LondonAddr);
    ApplyRowsStep(NoAttributes, r3, LondonPing, AfterBandwidth, AfterPing);
    LondonInertRows(AfterPing);
    ApplyRowsStep(NoAttributes, r4, LondonCertifications, AfterPing, AfterPing);
    LondonTestDownloadRow(AfterPing);
    ApplyRowsStep(NoAttributes, r5, LondonTestDownload, AfterPing, AfterTestDownload);
  }

  /** The London record of the page, field by field. */
  lemma LondonRecord(page: Document)
    requires page == [London]
    ensures ExtractAll(page) == Ok([DataCenter(
              "london",
              "London",
              [BareMetalServers, VirtualServers],
              Some("100TB"),
              Some(Ipv4Addr(82, 163, 78, 28)),
              Some("http://82.163.78.28/speedtest.256mb"),
              Some("https://info.ingenuitycloudservices.com/us/data-center/london"))])
  {
    var loc := page[0];
    LondonRows(loc.rows);
    assert loc.id == Some("london") && loc.cities == ["London"];
    assert FirstHref(loc.popoverLinks) == Some("https://info.ingenuitycloudservices.com/us/data-center/london");
    assert ExtractLocation(loc) == Ok(DataCenter("london", "London", AfterTestDownload.availableServices,
      AfterTestDownload.standardBareMetalBandwidth, AfterTestDownload.ping, AfterTestDownload.testDownload,
      FirstHref(loc.popoverLinks)));
    assert page[..0] == [];
    assert AfterTestDownload == Accumulators([BareMetalServers, VirtualServers], Some("100TB"),
      Some(Ipv4Addr(82, 163, 78, 28)), Some("http://82.163.78.28/speedtest.256mb"));
    var dc := ExtractLocation(loc).value;
    assert ExtractAll(page) == Ok([] + [dc]);
    assert [] + [dc] == [dc];
  }

  /** A ping value that is not an address fails the location with that text. */
  lemma NotAnAddress()
    ensures ApplyRow(NoAttributes, [Cell("Ping/Trace Route", []), Cell("", []), Cell("not-an-ip", [])])
            == Err(PingInvalid("not-an-ip"))
  {
    var v := "not-an-ip";
    assert '.' !in v;
    SplitWithoutSep(v, '.');
    assert ParseIpv4(v) == None;
    assert v != "-" && v != "";
    PingRejected(NoAttributes, [Cell("Ping/Trace Route", []), Cell("", []), Cell(v, [])]);
  }

  /** A "Ping/Trace Route" row whose value reads as an address stores that address. */
  lemma PingAccepted(f: Accumulators, row: Row, addr: Ipv4Addr)
    requires |row| == 3 && row[0].innerHtml == "Ping/Trace Route"
    requires row[2].innerHtml != "-" && row[2].innerHtml != "" && ParseIpv4(row[2].innerHtml) == Some(addr)
    ensures ApplyRow(f, row) == Ok(f.(ping := Some(addr)))
  {
    assert LabelOf(row[0].innerHtml) == PingTraceRoute;
  }

  /** A "Ping/Trace Route" row whose value is not "-", not empty and not an address fails with that value. */
  lemma PingRejected(f: Accumulators, row: Row)
    requires |row| == 3 && row[0].innerHtml == "Ping/Trace Route"
    requires row[2].innerHtml != "-" && row[2].innerHtml != "" && ParseIpv4(row[2].innerHtml).None?
    ensures ApplyRow(f, row) == Err(PingInvalid(row[2].innerHtml))
  {
    assert LabelOf(row[0].innerHtml) == PingTraceRoute;
  }
}
