# WRP capture core in Dafny

WRP (Web Rendering Proxy) renders a web page in a headless browser, turns the
screenshot into a GIF and sends a browser without scripting an HTML page that
shows the GIF with an image map: a clickable `<AREA>` for every link on the
page, each pointing back at the proxy. This project models the sequential
logic of that program and proves what it does:

- `Page` is the page handler (`pageServer`). It picks the URL from the `url`
  form field or falls back to the default landing page. It writes the head and
  the URL form, runs the capture and closes the page.
- `Capture` is the part of `capture` that runs after the browser. It handles a
  screenshot that did not decode and a GIF that did not encode. It stores the
  GIF under a generated key, writes the `<IMG>`/`<MAP>` tags, and runs the loop
  that turns anchor nodes into `<AREA>` lines: failed lookups are skipped, and
  a length filter applies to the box quad and to the target.
- `ImageTable` is the process-wide one-shot table `gifmap`, written as a class
  with `Store` and `Take`. It also holds the image-key format `/img/%04d.gif`
  and the image handler (`imgServer`). That handler serves the stored bytes
  with their length, deletes the key, and answers an absent key with an empty
  body.
- `Decimal` holds the number formatting the program relies on: `strconv.Itoa`
  for Content-Length, `%04d` for the key, and `%.f` for coordinates, which
  this model takes as already-rounded integers. Each printer comes with a
  parser, and a round-trip lemma shows the parser reads the text back.
- `Wrappers` holds the `Option` type.

What the browser, the PNG/GIF codecs, URL resolution and the random number
generator return is passed in as input:
- a `Codec` value: decode failed with a message, encode failed with a message,
  or the GIF bytes;
- the draw `n` with `0 <= n < 9999`;
- one `Node` per anchor element: its `href` attribute, its content quad (or
  none when the box-model lookup failed), and the resolved URL's text (or none
  when resolution failed).

The HTTP response body is modelled as a returned string. The methods return
their output pieces joined in the order the program writes them.

Three behaviours of the program a reader may not expect:
- A repeated or unknown image fetch is answered with an empty `image/gif` body
  and `Content-Length: 0`. It is not answered with "not found".
- The only link filters are the two length tests. An empty `href` is not
  dropped by itself: it resolves to the page's own URL and usually passes.
- Keys come from 9999 values, so they are not unique. Two captures with the
  same draw share a key, and the second one's bytes win (`SameDrawOverwrites`).

## Model

| member | source | states |
|---|---|---|
| `Page.ChooseUrl` | wrp.go:41-47 | the first `url` value is used exactly when there is one and it is longer than 4 characters; otherwise the default `https://www.bbc.com/news` is used; the result is always longer than 4, so the capture branch is always taken |
| `Page.PageServer` | wrp.go:39-57 | the page is the head and form for the chosen URL, then the capture's text, then `</BODY>\n</HTML>\n`; the image table changes only as the capture changes it |
| `Page.PageThenImage` | wrp.go:39-65 | in any table, a successful page request stores the GIF so that the first fetch of its key returns those bytes and a second fetch returns an empty body with length "0"; the other entries end as they were |
| `Capture.Capture` | wrp.go:98-137 | on a decode or encode failure the output is that error's text alone and the table is unchanged; otherwise the GIF is stored under `ImageKey(n)` (the other entries are untouched) and the output is the `<IMG>`/`<MAP>` header, the area lines of the emitting nodes in node order, and `</MAP>` |
| `Capture.WriteAreas` | wrp.go:120-135 | the loop's output is exactly the `<AREA>` lines of the regions `Areas` selects, in node order (proved with the loop invariant) |
| `Capture.Areas` | wrp.go:120-135 | the node loop emits at most one region per node |
| `Capture.AreasFromNodes` | wrp.go:120-134 | every emitted region is the region of some node whose box lookup and href resolution succeeded and which passed the length filter |
| `Capture.AreasAppend` | wrp.go:120-135 | the regions of two node lists in sequence are the regions of the first followed by those of the second, so the output keeps node order |
| `Capture.AreasSingle` | wrp.go:121-134 | a single node yields its region when it passes every check, and nothing otherwise |
| `Capture.AreasSkip` | wrp.go:121-128 | a node that fails a lookup or the filter is skipped without changing the regions of the nodes before or after it |
| `Capture.AreasAllEmit` | wrp.go:120-134 | when every node passes, there is one region per node, the k-th region from the k-th node |
| `Capture.EmitsIff` | wrp.go:131 | a node yields a region exactly when both lookups succeeded, the quad has at least 7 numbers and the resolved text has at least 2 characters (`"/?url=" + t` longer than 7) |
| `Capture.AreasHref` | wrp.go:129-133 | every region's HREF is longer than 7, starts with `/?url=` and is followed by the resolved text of one of the nodes |
| `Capture.TargetInjective` | wrp.go:129 | two resolved URLs give the same `/?url=` target exactly when they are equal, so each HREF names one link |
| `Capture.CoordsRoundTrip` | wrp.go:132-133 | the COORDS text reads back as exactly the four numbers it was printed from (content entries 0, 1, 4, 5), in that order |
| `Capture.CaptureFailureIgnoresMap` | wrp.go:99-111 | on a decode or encode failure the capture's text does not depend on the key or the nodes: no image tag and no area is written |
| `Capture.CaptureSuccessFraming` | wrp.go:117-137 | a successful capture's text opens with the `<IMG>`/`<MAP>` header for the key and ends with `</MAP>\n` |
| `ImageTable.ImageKey` | wrp.go:112 | a key is 13 characters: `/img/`, four decimal digits that read back as the draw, then `.gif` |
| `ImageTable.ImageKeyInjective` | wrp.go:112 | two draws give the same key exactly when they are equal |
| `ImageTable.GifMap.constructor` | wrp.go:36 | the table starts empty |
| `ImageTable.GifMap.Store` | wrp.go:113 | the key maps to the new bytes, overwriting any earlier entry; every other entry is unchanged |
| `ImageTable.GifMap.Take` | wrp.go:61-62 | returns the entry (empty when absent); afterwards the key is absent and every other entry is unchanged |
| `ImageTable.ImgServer` | wrp.go:59-67 | replies `image/gif` with the stored bytes (the empty buffer for an absent key, Go's zero value) and a Content-Length that is `strconv.Itoa` of their length and reads back as it (`"0"` for an absent key); afterwards the path is no longer in the table |
| `ImageTable.FetchIsOneShot` | wrp.go:61-65 | in any table, after a store the first fetch of the key returns the bytes with their `strconv.Itoa` length and the second returns an empty body with length "0"; the other entries end as they were |
| `ImageTable.SameDrawOverwrites` | wrp.go:112-113 | in any table, two captures with the same draw share a key; the last writer's bytes are served |
| `ImageTable.DistinctDrawsKeepBoth` | wrp.go:112-113 | in any table, captures with different draws keep separate entries; each fetch serves its own bytes, and the other entries end as they were |
| `Decimal.NatToDecimal` | wrp.go:64 | `strconv.Itoa` text: non-empty, only digits, and no leading zero except for `"0"` |
| `Decimal.NatToDecimalRoundTrip` | wrp.go:64 | the Content-Length text reads back as the number printed |
| `Decimal.NatToDecimalInjective` | wrp.go:64 | different lengths never print alike |
| `Decimal.IntToDecimal` | wrp.go:132 | a coordinate's text is non-empty, has no comma, starts with `-` exactly when the value is negative, and has no leading zero except for `"0"` |
| `Decimal.IntToDecimalRoundTrip` | wrp.go:132 | a coordinate's text reads back as the coordinate |
| `Decimal.ZeroPad4` | wrp.go:112 | `%04d` of a draw below 10000 is exactly four digits |
| `Decimal.ZeroPad4RoundTrip` | wrp.go:112 | the four digits read back as the draw |

## Left out

- The browser session is not modelled: device metrics, navigation, the two-second sleep, the screenshot, the final location, the node query and the box-model lookups (wrp.go:88-94, 121). Their results are inputs: the `Codec` value and the per-node `box`.
- Navigation errors are not modelled: the program ignores the result of `chromedp.Run`, so a failed navigation only shows up as a failed decode.
- PNG decoding and GIF encoding are library codecs (wrp.go:99, 106). Only their outcome is modelled: an error message or the GIF bytes.
- URL parsing and relative resolution (`url.Parse`, `base.Parse`, wrp.go:116, 125) belong to the standard library. Each node carries the resolved URL's text, or none when `base.Parse` returns an error for that href.
- A landed-on URL that does not parse is not modelled: the model assumes `url.Parse(loc)` succeeds. The program discards that error (wrp.go:116), leaving `base` nil. The first node with a box and a relative href (including `""`) then makes `base.Parse` panic (wrp.go:125). By then the GIF is already stored and the `<IMG>`/`<MAP>` header written (wrp.go:113, 117), so the page is cut short and the table entry is never fetched.
- Float rounding by `%.f` is not modelled (wrp.go:132). Coordinates are integers that are already rounded, so the model does not capture Go printing `-0` for small negative values.
- `rand.Intn` and `rand.Seed` are randomness (wrp.go:112, 148). The draw `n` is a parameter with `0 <= n < 9999`.
- Concurrency is not modelled: HTTP handlers reach `gifmap` without synchronisation, and the model runs every operation sequentially.
- String lengths are counted in characters. Go's `len` counts UTF-8 bytes, so the two agree only on ASCII URLs and targets.
- HTML escaping is not modelled because the program does none: the URL and the href attribute are written into the page as they are.
- Response headers for the page, flushing, and logging are left out, as are `haltServer` with `os.Exit`, flag parsing, handler registration, `http.NotFound` for `/favicon.ico`, and `main` (wrp.go:49, 69-76, 142-155). They are process plumbing.
- `Capture.WriteAreas`: the node loop of `capture` is its own method here, and the `<IMG>` header and `</MAP>` are written around its result. The program writes everything to one stream, and the text written is the same.
