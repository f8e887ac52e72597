/**
 * The data-center record extractor `parse_html`.
 *
 * The HTML parser and the CSS selector engine are not modelled: a document
 * is given as the elements the extractor's selectors pick out, in document
 * order, and every string is the inner markup the extractor reads.
 */
module Html {
  import opened Wrappers
  import opened Ipv4
  import opened DataCenters

  /** An `a` element: its `title` and `href` attributes when present. */
  datatype Link = Link(title: Option<string>, href: Option<string>)

  /** A `td` element: its inner markup and the `a` elements inside it. */
  datatype Cell = Cell(innerHtml: string, links: seq<Link>)

  /** A `table tr` match, as the `td` elements inside it. */
  type Row = seq<Cell>

  /**
   * A `div.location` element: its `id` attribute, the inner markup of each
   * `.dc-city` match, each `table tr` match and each `.popover-container a`
   * match inside it.
   */
  datatype Location = Location(
    id: Option<string>,
    cities: seq<string>,
    rows: seq<Row>,
    popoverLinks: seq<Link>)

  /** The `div.location` matches of a page, in document order. */
  type Document = seq<Location>

  /** Why extraction failed; `PingInvalid` carries the text that did not read as an address. */
  datatype ParseHtmlError =
    | IdMissing
    | CityMissing
    | AttrElementInvalid
    | AvailableServiceUnknown
    | PingInvalid(raw: string)

  /** The row labels the extractor dispatches on; every other text is `OtherLabel`. */
  datatype Label =
    | AvailableServices
    | AvailableNetworks
    | StandardBareMetalBandwidth
    | PingTraceRoute
    | Certifications
    | TestDownload
    | OtherLabel

  function LabelText(l: Label): string
    requires l != OtherLabel
  {
    match l
    case AvailableServices => "Available Services"
    case AvailableNetworks => "Available Networks"
    case StandardBareMetalBandwidth => "Standard Bare Metal Bandwidth"
    case PingTraceRoute => "Ping/Trace Route"
    case Certifications => "Certifications"
    case TestDownload => "Test Download"
  }

  /** Exact-match dispatch: a label cell names a recognised label only if it is that label's text. */
  function LabelOf(s: string): (l: Label)
    ensures l != OtherLabel ==> LabelText(l) == s
    ensures l == OtherLabel ==> forall k: Label :: k != OtherLabel ==> LabelText(k) != s
  {
    if s == "Available Services" then AvailableServices
    else if s == "Available Networks" then AvailableNetworks
    else if s == "Standard Bare Metal Bandwidth" then StandardBareMetalBandwidth
    else if s == "Ping/Trace Route" then PingTraceRoute
    else if s == "Certifications" then Certifications
    else if s == "Test Download" then TestDownload
    else OtherLabel
  }

  /** The `title` each service carries on the page. */
  function ServiceTitle(svc: AvailableService): string {
    match svc
    case BareMetalServers => "Bare Metal Servers"
    case VirtualServers => "Virtual Servers"
    case PrivateCloud => "Private Cloud"
  }

  /** The closed vocabulary: a title names a service only if it is exactly that service's title. */
  function ServiceFromTitle(title: string): (r: Option<AvailableService>)
    ensures r.Some? ==> ServiceTitle(r.value) == title
    ensures r.None? ==> forall svc: AvailableService :: ServiceTitle(svc) != title
  {
    if title == "Bare Metal Servers" then Some(BareMetalServers)
    else if title == "Virtual Servers" then Some(VirtualServers)
    else if title == "Private Cloud" then Some(PrivateCloud)
    else None
  }

  /** The `href` of the first link, if there is a link and it has one. */
  function FirstHref(links: seq<Link>): Option<string> {
    if |links| == 0 then None else links[0].href
  }

  /** The per-location values collected row by row. */
  datatype Accumulators = Accumulators(
    availableServices: seq<AvailableService>,
    standardBareMetalBandwidth: Option<string>,
    ping: Option<Ipv4Addr>,
    testDownload: Option<string>)

  const NoAttributes := Accumulators([], None, None, None)

  /** One link of an "Available Services" value cell. */
  function ServiceStep(acc: seq<AvailableService>, link: Link): Result<seq<AvailableService>, ParseHtmlError> {
    if link.title.None? then Ok(acc)
    else
      match ServiceFromTitle(link.title.value)
      case None => Err(AvailableServiceUnknown)
      case Some(svc) => Ok(acc + [svc])
  }

  /** The links of an "Available Services" value cell, in order, stopping at the first unknown title. */
  function CollectServices(acc: seq<AvailableService>, links: seq<Link>): (r: Result<seq<AvailableService>, ParseHtmlError>)
    ensures r.Err? ==> r.error == AvailableServiceUnknown
    ensures r.Ok? ==> acc <= r.value
    decreases |links|
  {
    if links == [] then Ok(acc)
    else
      match CollectServices(acc, links[..|links| - 1])
      case Err(e) => Err(e)
      case Ok(s) => ServiceStep(s, links[|links| - 1])
  }

  /** One `table tr` row: the three-`td` shape check, then dispatch on the label cell. */
  function ApplyRow(f: Accumulators, row: Row): (r: Result<Accumulators, ParseHtmlError>)
    ensures r == Err(AttrElementInvalid) <==> |row| != 3
    ensures |row| == 3 && LabelOf(row[0].innerHtml) in {AvailableNetworks, Certifications, OtherLabel} ==>
              r == Ok(f)
  {
    if |row| != 3 then Err(AttrElementInvalid)
    else
      var value := row[2];
      match LabelOf(row[0].innerHtml)
      case AvailableServices =>
        (match CollectServices(f.availableServices, value.links)
         case Err(e) => Err(e)
         case Ok(s) => Ok(f.(availableServices := s)))
      case AvailableNetworks => Ok(f)
      case StandardBareMetalBandwidth =>
        if value.innerHtml == "" then Ok(f)
        else Ok(f.(standardBareMetalBandwidth := Some(value.innerHtml)))
      case PingTraceRoute =>
        if value.innerHtml == "-" || value.innerHtml == "" then Ok(f)
        else
          (match ParseIpv4(value.innerHtml)
           case None => Err(PingInvalid(value.innerHtml))
           case Some(addr) => Ok(f.(ping := Some(addr))))
      case Certifications => Ok(f)
      case TestDownload =>
        if value.innerHtml == "" then Ok(f)
        else
          (match FirstHref(value.links)
           case None => Ok(f)
           case Some(href) => Ok(f.(testDownload := Some(href))))
      case OtherLabel => Ok(f)
  }

  /** The rows of a location in order, stopping at the first failing row. */
  function ApplyRows(f: Accumulators, rows: seq<Row>): Result<Accumulators, ParseHtmlError>
    decreases |rows|
  {
    if rows == [] then Ok(f)
    else
      match ApplyRows(f, rows[..|rows| - 1])
      case Err(e) => Err(e)
      case Ok(g) => ApplyRow(g, rows[|rows| - 1])
  }

  /** One `div.location` element: id first, then city, then the rows, then the detail link. */
  function ExtractLocation(loc: Location): (r: Result<DataCenter, ParseHtmlError>)
    ensures loc.id.None? ==> r == Err(IdMissing)
    ensures loc.id.Some? && loc.cities == [] ==> r == Err(CityMissing)
    ensures r.Ok? ==> Some(r.value.id) == loc.id && |loc.cities| > 0 && r.value.city == loc.cities[0]
    ensures r.Ok? ==> r.value.url == FirstHref(loc.popoverLinks)
  {
    if loc.id.None? then Err(IdMissing)
    else if |loc.cities| == 0 then Err(CityMissing)
    else
      match ApplyRows(NoAttributes, loc.rows)
      case Err(e) => Err(e)
      case Ok(f) =>
        Ok(DataCenter(loc.id.value, loc.cities[0], f.availableServices, f.standardBareMetalBandwidth,
                      f.ping, f.testDownload, FirstHref(loc.popoverLinks)))
  }

  /** Every location in document order, or the first location's error. */
  function ExtractAll(doc: Document): Result<seq<DataCenter>, ParseHtmlError>
    decreases |doc|
  {
    if doc == [] then Ok([])
    else
      match ExtractAll(doc[..|doc| - 1])
      case Err(e) => Err(e)
      case Ok(dcs) =>
        (match ExtractLocation(doc[|doc| - 1])
         case Err(e) => Err(e)
         case Ok(dc) => Ok(dcs + [dc]))
  }

  // Once a prefix has failed, the whole sequence fails with the same error.

  lemma {:induction false} CollectServicesErrPersists(acc: seq<AvailableService>, links: seq<Link>, k: nat)
    requires k <= |links| && CollectServices(acc, links[..k]).Err?
    ensures CollectServices(acc, links) == CollectServices(acc, links[..k])
    decreases |links| - k
  {
    if k < |links| {
      assert links[..k + 1][..k] == links[..k];
      CollectServicesErrPersists(acc, links, k + 1);
    } else {
      assert links[..k] == links;
    }
  }

  lemma {:induction false} ApplyRowsErrPersists(f: Accumulators, rows: seq<Row>, k: nat)
    requires k <= |rows| && ApplyRows(f, rows[..k]).Err?
    ensures ApplyRows(f, rows) == ApplyRows(f, rows[..k])
    decreases |rows| - k
  {
    if k < |rows| {
      assert rows[..k + 1][..k] == rows[..k];
      ApplyRowsErrPersists(f, rows, k + 1);
    } else {
      assert rows[..k] == rows;
    }
  }

  lemma {:induction false} ExtractAllErrPersists(doc: Document, k: nat)
    requires k <= |doc| && ExtractAll(doc[..k]).Err?
    ensures ExtractAll(doc) == ExtractAll(doc[..k])
    decreases |doc| - k
  {
    if k < |doc| {
      assert doc[..k + 1][..k] == doc[..k];
      ExtractAllErrPersists(doc, k + 1);
    } else {
      assert doc[..k] == doc;
    }
  }

  /** Location `i` fails after every earlier one succeeded: the document fails with its error. */
  lemma LocationFailsDocument(doc: Document, i: nat, dcs: seq<DataCenter>)
    requires i < |doc| && ExtractAll(doc[..i]) == Ok(dcs) && ExtractLocation(doc[i]).Err?
    ensures ExtractAll(doc) == Err(ExtractLocation(doc[i]).error)
  {
    assert doc[..i + 1][..i] == doc[..i];
    ExtractAllErrPersists(doc, i + 1);
  }

  /** Row `j` fails after every earlier one succeeded: the location fails with its error. */
  lemma RowFailsLocation(loc: Location, j: nat, f: Accumulators)
    requires loc.id.Some? && |loc.cities| > 0
    requires j < |loc.rows| && ApplyRows(NoAttributes, loc.rows[..j]) == Ok(f) && ApplyRow(f, loc.rows[j]).Err?
    ensures ExtractLocation(loc) == Err(ApplyRow(f, loc.rows[j]).error)
  {
    assert loc.rows[..j + 1][..j] == loc.rows[..j];
    ApplyRowsErrPersists(NoAttributes, loc.rows, j + 1);
  }

  /** Link `k` has an unknown title after every earlier link was accepted: the collection fails. */
  lemma LinkFailsServices(acc: seq<AvailableService>, links: seq<Link>, k: nat, s: seq<AvailableService>)
    requires k < |links| && CollectServices(acc, links[..k]) == Ok(s) && ServiceStep(s, links[k]).Err?
    ensures CollectServices(acc, links) == Err(AvailableServiceUnknown)
  {
    assert links[..k + 1][..k] == links[..k];
    CollectServicesErrPersists(acc, links, k + 1);
  }

  /**
   * `parse_html`: one pass over the location blocks, returning early on the
   * first error; each block is read by `ParseLocation`.
   */
  method ParseHtml(doc: Document) returns (r: Result<seq<DataCenter>, ParseHtmlError>)
    ensures r == ExtractAll(doc)
  {
    var dataCenters: seq<DataCenter> := [];
    for i := 0 to |doc|
      invariant ExtractAll(doc[..i]) == Ok(dataCenters)
    {
      assert doc[..i + 1][..i] == doc[..i];
      var dataCenter := ParseLocation(doc[i]);
      if dataCenter.Err? {
        LocationFailsDocument(doc, i, dataCenters);
        return Err(dataCenter.error);
      }
      dataCenters := dataCenters + [dataCenter.value];
    }
    assert doc[..|doc|] == doc;
    return Ok(dataCenters);
  }

  /**
   * The body of `parse_html`'s loop for one location block: the id, the
   * city, then the accumulators updated row by row, returning early on the
   * first error.
   */
  method ParseLocation(location: Location) returns (r: Result<DataCenter, ParseHtmlError>)
    ensures r == ExtractLocation(location)
  {
    if location.id.None? {
      return Err(IdMissing);
    }
    var id := location.id.value;
    if |location.cities| == 0 {
      return Err(CityMissing);
    }
    var city := location.cities[0];

    var acc := NoAttributes;
    for j := 0 to |location.rows|
      invariant ApplyRows(NoAttributes, location.rows[..j]) == Ok(acc)
    {
      assert location.rows[..j + 1][..j] == location.rows[..j];
      var next := ParseRow(acc, location.rows[j]);
      if next.Err? {
        RowFailsLocation(location, j, acc);
        return Err(next.error);
      }
      acc := next.value;
    }
    assert location.rows[..|location.rows|] == location.rows;

    var url := if |location.popoverLinks| > 0 then location.popoverLinks[0].href else None;

    return Ok(DataCenter(id, city, acc.availableServices, acc.standardBareMetalBandwidth,
                         acc.ping, acc.testDownload, url));
  }

  /**
   * The body of the row loop: the `td` iterator must yield a label, a
   * spacer and a value cell and nothing after them; then the label picks
   * which accumulator the value updates.
   */
  method ParseRow(acc: Accumulators, row: Row) returns (r: Result<Accumulators, ParseHtmlError>)
    ensures r == ApplyRow(acc, row)
  {
    // Fewer than three `td`: one of the first three `next()` calls finds none.
    if |row| < 3 {
      return Err(AttrElementInvalid);
    }
    var head, value := row[0], row[2];
    // A fourth `td`: the iterator is not exhausted after the value cell.
    if |row| > 3 {
      return Err(AttrElementInvalid);
    }
    var heading := head.innerHtml;
    if heading == "Available Services" {
      var availableServices := acc.availableServices;
      var links := value.links;
      for k := 0 to |links|
        invariant CollectServices(acc.availableServices, links[..k]) == Ok(availableServices)
      {
        assert links[..k + 1][..k] == links[..k];
        var link := links[k];
        if link.title.Some? {
          var service := ServiceFromTitle(link.title.value);
          if service.None? {
            LinkFailsServices(acc.availableServices, links, k, availableServices);
            return Err(AvailableServiceUnknown);
          }
          availableServices := availableServices + [service.value];
        }
      }
      assert links[..|links|] == links;
      return Ok(acc.(availableServices := availableServices));
    } else if heading == "Available Networks" {
    } else if heading == "Standard Bare Metal Bandwidth" {
      var s := value.innerHtml;
      if s != "" {
        return Ok(acc.(standardBareMetalBandwidth := Some(s)));
      }
    } else if heading == "Ping/Trace Route" {
      var s := value.innerHtml;
      if s != "-" && s != "" {
        var v := ParseIpv4(s);
        if v.None? {
          return Err(PingInvalid(s));
        }
        return Ok(acc.(ping := v));
      }
    } else if heading == "Certifications" {
    } else if heading == "Test Download" {
      var s := value.innerHtml;
      if s != "" {
        if |value.links| > 0 && value.links[0].href.Some? {
          return Ok(acc.(testDownload := value.links[0].href));
        }
      }
    }
    return Ok(acc);
  }
}
