# thghosting data-center extractor, modelled in Dafny

This project models `parse_html`, the function of the `thghosting-data-centers` crate that turns the
provider's "data centers" web page into a list of `DataCenter` records. The page is a sequence of
`div.location` blocks. Each block yields one record, or the whole call fails with the first
`ParseHtmlError`. The record fields are:

- the block's `id` attribute;
- the markup of its first `.dc-city` element;
- the services named in its "Available Services" rows, in row order;
- the "Standard Bare Metal Bandwidth" text;
- the "Ping/Trace Route" address, read as a dotted-decimal IPv4 address;
- the "Test Download" link;
- the block's first popover link.

The HTML parser and the CSS selector engine are outside the model. A `Document` is the sequence of
`div.location` matches, in document order. Each `Location` holds four things:

- its optional `id`;
- the inner markup of each `.dc-city` match;
- each `table tr` match, as the sequence of its `td` cells;
- each `.popover-container a` match.

A `Cell` holds its inner markup and its `a` elements. A `Link` holds its optional `title` and `href`.

The modules are:

- `Wrappers`: the `Option` and `Result` datatypes.
- `DataCenters`: the record type `DataCenter` and the closed `AvailableService` enum.
- `Ipv4`: a concrete dotted-decimal reader that stands in for the standard library's
  `Ipv4Addr::from_str`.
- `Html`: the document tree, `ParseHtmlError`, the functional specification and the imperative
  extractor. The specification has one function per level: `ApplyRow` for one row, `ApplyRows` for
  the rows of a block, `ExtractLocation` for one block and `ExtractAll` for the page. The extractor is
  `ParseHtml`, with `ParseLocation` and `ParseRow`. It keeps the mutable accumulators and early
  returns of the original loops, and each method is proved equal to its specification function.
- `HtmlProperties`: what the extractor promises, stated against independent descriptions of a page.
  These cover which rows are accepted, what each field ends up holding and how blocks combine. They
  also cover a London block built to yield the values the crate's own test expects. That test reads a
  saved page that is not part of this model, so the cells the test does not check are made up.

## Model

| member | source | states |
|---|---|---|
| Html.ParseHtml | thghosting-data-centers/src/html.rs:62-187 | The loop over location blocks, which pushes one record per block and returns the first error, computes exactly `ExtractAll(doc)`. |
| Html.ParseLocation | thghosting-data-centers/src/html.rs:69-183 | One block: the id, the city, the four accumulators updated row by row with early return, then the record. It computes exactly `ExtractLocation(location)`. |
| Html.ParseRow | thghosting-data-centers/src/html.rs:89-165 | One row, following the iterator shape check and the label `match`, including the inner loop over service links. It computes exactly `ApplyRow(acc, row)`. |
| Html.LabelOf | thghosting-data-centers/src/html.rs:104-164 | Label dispatch is by exact string: a recognised label is returned only for its own text. Every other text, including near misses, falls to the default arm. |
| Html.ServiceFromTitle | thghosting-data-centers/src/html.rs:109-120 | The service vocabulary is closed: a title maps to a service exactly when it is that service's title, and to none otherwise. |
| Html.CollectServices | thghosting-data-centers/src/html.rs:105-122 | Collecting service links only ever appends to the services already held, and its only error is `AvailableServiceUnknown`. |
| Html.ApplyRow | thghosting-data-centers/src/html.rs:91-165 | A row fails with `AttrElementInvalid` exactly when it does not have three cells. A three-cell row labelled "Available Networks", "Certifications" or anything unrecognised leaves every accumulator as it was. |
| Html.ExtractLocation | thghosting-data-centers/src/html.rs:70-183 | A missing id gives `IdMissing` first, then no city gives `CityMissing`. A record carries the block's id and its first city, and its `url` is the first popover link's `href` or none. |
| Html.LocationFailsDocument | thghosting-data-centers/src/html.rs:69-73 | When block `i` fails after every earlier block succeeded, the page fails with block `i`'s error. |
| Html.RowFailsLocation | thghosting-data-centers/src/html.rs:89-103 | When row `j` fails after every earlier row succeeded, its block fails with row `j`'s error. |
| Html.LinkFailsServices | thghosting-data-centers/src/html.rs:107-119 | A link with an unknown title, after the earlier links were accepted, makes the whole service list fail. |
| Html.ApplyRowsErrPersists | thghosting-data-centers/src/html.rs:89-103 | Once some prefix of the rows has failed, the rows as a whole fail with the same error: later rows never run. |
| Html.ExtractAllErrPersists | thghosting-data-centers/src/html.rs:69-81 | Once some prefix of the blocks has failed, the page fails with the same error. |
| Html.CollectServicesErrPersists | thghosting-data-centers/src/html.rs:107-119 | Once some prefix of the links has failed, the whole link list fails with the same error. |
| HtmlProperties.CollectServicesSpec | thghosting-data-centers/src/html.rs:105-122 | The links append, in link order, the service of every titled link, and skip links without a title. Any link with an unknown title fails the list with `AvailableServiceUnknown`. |
| HtmlProperties.TitledServicesAppend | thghosting-data-centers/src/html.rs:107-122 | Supporting lemma about the helper `TitledServices`: one more link adds its own service, if any, after the services of the earlier links. |
| HtmlProperties.ServicesInLinkOrder | thghosting-data-centers/src/html.rs:240-246 | The London links "Bare Metal Servers", "Virtual Servers" yield exactly those two services, in that order. |
| HtmlProperties.ApplyRowOk | thghosting-data-centers/src/html.rs:91-165 | A row succeeds exactly when it is accepted, whatever the accumulators held. Accepted means three cells, known service titles, and a ping value that is "-", empty or an address. |
| HtmlProperties.ApplyRowRejected | thghosting-data-centers/src/html.rs:91-165 | A rejected row fails with its own error, whatever the accumulators held: `AttrElementInvalid` for a bad shape, `AvailableServiceUnknown` for an unknown title, and otherwise `PingInvalid` of the ping text. |
| HtmlProperties.ApplyRowWrites | thghosting-data-centers/src/html.rs:104-164 | An accepted row appends the services it lists. It overwrites the bandwidth, ping or test download only when it writes one, and leaves the other fields unchanged. |
| HtmlProperties.ApplyRowBandwidth | thghosting-data-centers/src/html.rs:125-133 | After a row, the bandwidth is the row's non-empty "Standard Bare Metal Bandwidth" text, verbatim, or the previous value. |
| HtmlProperties.ApplyRowPing | thghosting-data-centers/src/html.rs:134-145 | After a row, the ping is the address its "Ping/Trace Route" value reads as, or the previous value. |
| HtmlProperties.ApplyRowTestDownload | thghosting-data-centers/src/html.rs:147-163 | After a row, the test download is the first link's `href` of a non-empty "Test Download" value, or the previous value. |
| HtmlProperties.PingRow | thghosting-data-centers/src/html.rs:134-145 | For a "Ping/Trace Route" row: "-" or "" changes nothing; the text of an address stores that address; any other text fails with `PingInvalid` carrying that text. |
| HtmlProperties.PingAccepted | thghosting-data-centers/src/html.rs:134-145 | A ping value other than "-" or "" that reads as an address stores that address. |
| HtmlProperties.PingRejected | thghosting-data-centers/src/html.rs:134-145 | A ping value other than "-" or "" that does not read as an address fails with `PingInvalid` of that raw value. |
| HtmlProperties.ApplyRowsAccepted | thghosting-data-centers/src/html.rs:89-166 | The rows of a block succeed exactly when every row is accepted. |
| HtmlProperties.ApplyRowsFirstError | thghosting-data-centers/src/html.rs:89-166 | The first rejected row decides the error, whatever the later rows hold. |
| HtmlProperties.ServicesAccumulate | thghosting-data-centers/src/html.rs:83-122 | Services accumulate across all "Available Services" rows in row order; nothing is dropped, reordered or overwritten. |
| HtmlProperties.BandwidthFinal | thghosting-data-centers/src/html.rs:84-133 | The final bandwidth is the last value any row wrote, or the initial value. |
| HtmlProperties.PingFinal | thghosting-data-centers/src/html.rs:85-145 | The final ping is the address of the last row that wrote one, or the initial value. |
| HtmlProperties.TestDownloadFinal | thghosting-data-centers/src/html.rs:86-163 | The final test download is the last link any row wrote, or the initial value. |
| HtmlProperties.LastWrittenAt | thghosting-data-centers/src/html.rs:125-163 | Supporting lemma about the helper `LastWritten`: if row `k` writes a field and no later row does, the field's final value is row `k`'s. |
| HtmlProperties.LastWrittenNone | thghosting-data-centers/src/html.rs:125-163 | Supporting lemma about the helper `LastWritten`: if no row writes a field, the field keeps its initial value. |
| HtmlProperties.BandwidthUntouched | thghosting-data-centers/src/html.rs:125-133 | Without a non-empty "Standard Bare Metal Bandwidth" row, the bandwidth keeps its initial value. |
| HtmlProperties.BandwidthLastWins | thghosting-data-centers/src/html.rs:125-133 | The last non-empty "Standard Bare Metal Bandwidth" row wins, verbatim. |
| HtmlProperties.PingUntouched | thghosting-data-centers/src/html.rs:134-145 | Without a "Ping/Trace Route" row whose value is neither "-" nor empty, the ping keeps its initial value. |
| HtmlProperties.PingLastWins | thghosting-data-centers/src/html.rs:134-145 | The last "Ping/Trace Route" row whose value is neither "-" nor empty wins, with that value read as an address. |
| HtmlProperties.TestDownloadUntouched | thghosting-data-centers/src/html.rs:147-163 | Without a "Test Download" row that has a non-empty value and a first link with an `href`, the test download keeps its initial value. |
| HtmlProperties.TestDownloadRowAccepted | thghosting-data-centers/src/html.rs:147-163 | A three-cell "Test Download" row never raises an error, whatever its value cell holds, including an empty value or no link with an `href`. |
| HtmlProperties.TestDownloadLastWins | thghosting-data-centers/src/html.rs:147-163 | The last "Test Download" row that has a non-empty value and a first link with an `href` wins. |
| HtmlProperties.LocationAccepted | thghosting-data-centers/src/html.rs:70-183 | A block yields a record exactly when it has an id, a city and only accepted rows; the popover link never makes it fail. The record's services are those of its rows, in order. Its bandwidth, ping and test download are each the last value a row wrote to that field, or none. |
| HtmlProperties.BadShapeFailsLocation | thghosting-data-centers/src/html.rs:91-103 | Any row without exactly three cells fails its block, whatever its label; header and unknown-label rows are not skipped. When the earlier rows were accepted, the error is `AttrElementInvalid`. |
| HtmlProperties.ExtractAllOk | thghosting-data-centers/src/html.rs:67-186 | All or nothing: the page yields records exactly when every block does. It then yields one record per block, in block order, each equal to its block's record. |
| HtmlProperties.ExtractAllRecords | thghosting-data-centers/src/html.rs:67-186 | A page without blocks yields no records. Otherwise each record carries its block's id and the markup of its first city, in block order. |
| HtmlProperties.ExtractAllFirstError | thghosting-data-centers/src/html.rs:69-81 | The first failing block decides the page's error. |
| HtmlProperties.ExtractAllErrorSource | thghosting-data-centers/src/html.rs:69-81 | Every error of the page is the error of some block, and every block before it succeeded. No partial result is returned. |
| HtmlProperties.ApplyRowsAppend | thghosting-data-centers/src/html.rs:89-166 | Supporting lemma, the recursive case of `ApplyRows` read forwards: one more row after rows that succeeded is applied to their accumulators. |
| HtmlProperties.ApplyRowsSnoc | thghosting-data-centers/src/html.rs:89-166 | Supporting lemma, the recursive case of `ApplyRows` read backwards: if the rows plus one more succeed, the shorter rows succeed, and the last row was applied to their result. |
| HtmlProperties.LondonServicesRow | thghosting-data-centers/src/html.rs:240-246 | The London "Available Services" row appends Bare Metal Servers and Virtual Servers. |
| HtmlProperties.LondonBandwidthRow | thghosting-data-centers/src/html.rs:247-250 | The London bandwidth row stores "100TB". |
| HtmlProperties.LondonTestDownloadRow | thghosting-data-centers/src/html.rs:252-255 | The London test download row stores its link "http://82.163.78.28/speedtest.256mb". |
| HtmlProperties.LondonAddress | thghosting-data-centers/src/html.rs:251 | "82.163.78.28" reads as the address 82.163.78.28. |
| HtmlProperties.LondonRows | thghosting-data-centers/src/html.rs:238-255 | The London block's rows produce the services, bandwidth, ping and test download that the crate's test expects. |
| HtmlProperties.LondonRecord | thghosting-data-centers/src/html.rs:238-259 | The London block yields the record the crate's test expects: id "london", city "London", the two services, "100TB", 82.163.78.28, the speed-test link and the detail-page URL. |
| HtmlProperties.NotAnAddress | thghosting-data-centers/src/html.rs:139-141 | A ping value "not-an-ip" fails with `PingInvalid("not-an-ip")`. |
| Ipv4.ParseIpv4Canonical | thghosting-data-centers/src/html.rs:139-141 | The address reader accepts exactly the canonical dotted-decimal texts: `s` reads as `addr` if and only if `s` is `addr`'s four decimal octets, without leading zeros, joined by '.'. |
| Ipv4.ParseOctetCanonical | thghosting-data-centers/src/html.rs:139-141 | One group reads as `n` if and only if it is the shortest decimal text of `n`. |
| Ipv4.TextParses | thghosting-data-centers/src/html.rs:139-141 | The shortest decimal text of every octet reads back as that octet. |
| Ipv4.ParsedIsText | thghosting-data-centers/src/html.rs:139-141 | A group that reads as `n` is the shortest decimal text of `n`, so leading zeros and values above 255 are refused. |
| Ipv4.SplitJoin | thghosting-data-centers/src/html.rs:139-141 | Supporting lemma about the helpers `Split` and `Join`: splitting on '.' undoes joining with '.', when no part contains '.'. |
| Ipv4.JoinSplit | thghosting-data-centers/src/html.rs:139-141 | Supporting lemma about the helpers `Split` and `Join`: joining the pieces of a split with '.' gives back the original text. |

## Left out

- The HTTP endpoint is not modelled: `HtmlEndpoint`, `render_request`, `parse_response`, `HtmlEndpointError` and the `URL` constant. It is request building and UTF-8 decoding through an external crate.
- HTML parsing and CSS selection (`Html::parse_document`, `Selector::parse`, `select`) are not modelled. A page is given as the elements the selectors pick out, in document order, with their inner markup as plain strings.
- `PingInvalid` keeps only the raw value text. The standard library's `AddrParseError` payload carries no information beyond the failure itself.
- `Ipv4.ParseIpv4` stands in for `Ipv4Addr::from_str`, which is not part of this model. It follows that reader's documented grammar: four '.'-separated groups of one to three ASCII digits, no leading zero unless the group is "0", and each group at most 255.
- The test's file-system and environment reads are left out, as are the `Debug` and error-message formatting. The test's expected London values appear as the `London` fixture.
- The code does not require ids or cities to be non-empty or unique, and the model follows it. A block whose id attribute or first city is the empty string still yields a record, and two blocks with the same id yield two records.
- Running the extractor twice on the same page gives the same result. This holds trivially because the model is a pure function of the page, so it is not stated as a lemma.
