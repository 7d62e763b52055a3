/**
 * The part of a capture that runs after the browser: turning the screenshot
 * into a stored GIF, and turning the page's anchors into the <AREA> lines of
 * the image map.  What the browser, the codecs and URL resolution return is
 * taken as input.
 */
module Capture {
  import opened Wrappers
  import opened Decimal
  import opened ImageTable

  /**
   * One anchor element as the capture sees it: its href attribute ("" when it
   * has none), its box-model content quad (None when the lookup failed), and
   * the href resolved against the landed-on URL and printed back as text
   * (None when resolution failed).  Coordinates are already rounded.
   */
  datatype Node = Node(href: string, box: Option<seq<int>>, resolved: Option<string>)

  /** Outcome of decoding the PNG screenshot and encoding it as a GIF. */
  datatype Codec =
    | DecodeFailed(decodeError: string)
    | EncodeFailed(encodeError: string)
    | Encoded(gif: seq<byte>)

  /** The link a region points at: a new request to this proxy for the target. */
  function Target(resolved: string): (t: string)
    ensures |t| == |resolved| + 6 && t[..6] == "/?url=" && t[6..] == resolved
  {
    "/?url=" + resolved
  }

  /** Distinct resolved URLs give distinct targets, so the HREF identifies the link. */
  lemma TargetInjective(a: string, b: string)
    ensures Target(a) == Target(b) <==> a == b
  {
    if Target(a) == Target(b) {
      assert a == Target(a)[6..];
    }
  }

  /**
   * A node yields an <AREA> line when both lookups succeeded, its content
   * quad holds more than six numbers and its target is longer than seven
   * characters.
   */
  predicate Emits(n: Node) {
    n.box.Some? && n.resolved.Some? && |n.box.value| > 6 && |Target(n.resolved.value)| > 7
  }

  /** The length filter on the target only rejects resolved texts shorter than two characters. */
  lemma EmitsIff(n: Node)
    ensures Emits(n) <==> n.box.Some? && n.resolved.Some? && |n.box.value| >= 7 && |n.resolved.value| >= 2
  {
    if n.resolved.Some? {
      assert |Target(n.resolved.value)| == |n.resolved.value| + 6;
    }
  }

  /** The COORDS attribute value: four integers separated by commas. */
  function Coords(left: int, top: int, right: int, bottom: int): string {
    IntToDecimal(left) + "," + (IntToDecimal(top) + "," + (IntToDecimal(right) + "," + IntToDecimal(bottom)))
  }

  /** One clickable region of the image map: its rectangle, its ALT and TITLE text and its HREF. */
  datatype Area = Area(left: int, top: int, right: int, bottom: int, alt: string, href: string)

  /**
   * The region of an emitting node: the rectangle from content entries 0, 1,
   * 4 and 5, the raw href attribute as ALT and TITLE text, and the target as HREF.
   */
  function AreaOf(n: Node): Area
    requires Emits(n)
  {
    var b := n.box.value;
    Area(b[0], b[1], b[4], b[5], n.href, Target(n.resolved.value))
  }

  /** The regions the loop over the nodes emits, in node order; never more than there are nodes. */
  function Areas(nodes: seq<Node>): (areas: seq<Area>)
    ensures |areas| <= |nodes|
    decreases |nodes|
  {
    if nodes == [] then []
    else
      var rest := Areas(nodes[1..]);
      if Emits(nodes[0]) then [AreaOf(nodes[0])] + rest else rest
  }

  /** Every region emitted is the region of some emitting node of the input. */
  lemma {:induction false} AreasFromNodes(nodes: seq<Node>, k: nat)
    requires k < |Areas(nodes)|
    ensures exists j :: 0 <= j < |nodes| && Emits(nodes[j]) && Areas(nodes)[k] == AreaOf(nodes[j])
    decreases |nodes|
  {
    var rest := Areas(nodes[1..]);
    if Emits(nodes[0]) && k == 0 {
      assert Areas(nodes)[k] == AreaOf(nodes[0]);
    } else {
      var k' := if Emits(nodes[0]) then k - 1 else k;
      assert Areas(nodes)[k] == rest[k'];
      AreasFromNodes(nodes[1..], k');
      var j :| 0 <= j < |nodes[1..]| && Emits(nodes[1..][j]) && rest[k'] == AreaOf(nodes[1..][j]);
      assert nodes[1..][j] == nodes[j + 1];
    }
  }

  /**
   * What every emitted region looks like: its HREF is "/?url=" followed by a
   * resolved target of at least two characters.
   */
  lemma AreasHref(nodes: seq<Node>, k: nat)
    requires k < |Areas(nodes)|
    ensures |Areas(nodes)[k].href| > 7 && Areas(nodes)[k].href[..6] == "/?url="
    ensures exists j :: 0 <= j < |nodes| && nodes[j].resolved == Some(Areas(nodes)[k].href[6..])
  {
    AreasFromNodes(nodes, k);
    var j :| 0 <= j < |nodes| && Emits(nodes[j]) && Areas(nodes)[k] == AreaOf(nodes[j]);
    assert nodes[j].resolved == Some(Areas(nodes)[k].href[6..]);
  }

  /** The regions of a concatenation of node lists are the concatenation of their regions: order is kept. */
  lemma {:induction false} AreasAppend(a: seq<Node>, b: seq<Node>)
    ensures Areas(a + b) == Areas(a) + Areas(b)
    decreases |a|
  {
    if a == [] {
      assert a + b == b;
    } else {
      AreasAppend(a[1..], b);
      assert (a + b)[1..] == a[1..] + b;
      assert (a + b)[0] == a[0];
    }
  }

  /** A single node contributes its region when it emits, and nothing when it is skipped. */
  lemma AreasSingle(n: Node)
    ensures Areas([n]) == if Emits(n) then [AreaOf(n)] else []
  {
    assert [n][1..] == [];
  }

  /**
   * A node whose box lookup or href resolution failed (or that fails the
   * length filter) is skipped without affecting the regions of the nodes
   * around it.
   */
  lemma AreasSkip(before: seq<Node>, n: Node, after: seq<Node>)
    requires !Emits(n)
    ensures Areas(before + [n] + after) == Areas(before) + Areas(after)
  {
    AreasAppend(before + [n], after);
    AreasAppend(before, [n]);
    AreasSingle(n);
  }

  /** When every node emits there is one region per node, the k-th from the k-th node. */
  lemma {:induction false} AreasAllEmit(nodes: seq<Node>)
    requires forall n :: n in nodes ==> Emits(n)
    ensures |Areas(nodes)| == |nodes|
    ensures forall k :: 0 <= k < |nodes| ==> Areas(nodes)[k] == AreaOf(nodes[k])
    decreases |nodes|
  {
    if nodes != [] {
      assert forall n :: n in nodes[1..] ==> n in nodes;
      AreasAllEmit(nodes[1..]);
    }
  }

  /** Text of a list of pieces written one after the other. */
  function Concat(pieces: seq<string>): string
    decreases |pieces|
  {
    if pieces == [] then "" else pieces[0] + Concat(pieces[1..])
  }

  /** The <AREA> line written for a region. */
  function AreaLine(a: Area): string {
    Concat(["<AREA SHAPE=\"RECT\" COORDS=\"", Coords(a.left, a.top, a.right, a.bottom), "\" ALT=\"", a.alt,
            "\" TITLE=\"", a.alt, "\" HREF=\"", a.href, "\">\n"])
  }

  /** The text of f(x) for every x of xs, one after the other. */
  function ConcatMap<T>(f: T -> string, xs: seq<T>): string
    decreases |xs|
  {
    if xs == [] then "" else f(xs[0]) + ConcatMap(f, xs[1..])
  }

  lemma {:induction false} ConcatMapAppend<T>(f: T -> string, a: seq<T>, b: seq<T>)
    ensures ConcatMap(f, a + b) == ConcatMap(f, a) + ConcatMap(f, b)
    decreases |a|
  {
    if a == [] {
      assert a + b == b;
    } else {
      ConcatMapAppend(f, a[1..], b);
      assert (a + b)[1..] == a[1..] + b;
      assert (a + b)[0] == a[0];
    }
  }

  lemma ConcatMapSingle<T>(f: T -> string, x: T)
    ensures ConcatMap(f, [x]) == f(x)
  {
    assert [x][1..] == [];
  }

  /** The <AREA> lines of a list of regions, one after the other. */
  function AreaText(areas: seq<Area>): string {
    ConcatMap(AreaLine, areas)
  }

  /** Splits text at every comma, as a reader of the COORDS attribute would. */
  function SplitCommas(s: string): (parts: seq<string>)
    ensures |parts| >= 1
    decreases |s|
  {
    if s == [] then [""]
    else
      var rest := SplitCommas(s[1..]);
      if s[0] == ',' then [""] + rest else [[s[0]] + rest[0]] + rest[1..]
  }

  lemma {:induction false} SplitCommasNone(x: string)
    requires ',' !in x
    ensures SplitCommas(x) == [x]
    decreases |x|
  {
    if x != [] {
      assert ',' !in x[1..] by {
        assert forall k :: 0 <= k < |x[1..]| ==> x[1..][k] == x[k + 1];
      }
      SplitCommasNone(x[1..]);
      assert [x[0]] + x[1..] == x;
    }
  }

  lemma {:induction false} SplitCommasJoin(x: string, y: string)
    requires ',' !in x
    ensures SplitCommas(x + "," + y) == [x] + SplitCommas(y)
    decreases |x|
  {
    if x == [] {
      assert x + "," + y == [','] + y;
      assert ([','] + y)[1..] == y;
    } else {
      assert ',' !in x[1..] by {
        assert forall k :: 0 <= k < |x[1..]| ==> x[1..][k] == x[k + 1];
      }
      SplitCommasJoin(x[1..], y);
      assert (x + "," + y)[1..] == x[1..] + "," + y;
      assert [x[0]] + x[1..] == x;
    }
  }

  /** Reads each part as an integer; fails if any part does not read. */
  function ParseInts(parts: seq<string>): (r: Option<seq<int>>)
    ensures r.Some? ==> |r.value| == |parts|
    decreases |parts|
  {
    if parts == [] then Some([])
    else
      match (ParseInt(parts[0]), ParseInts(parts[1..]))
      case (Some(v), Some(vs)) => Some([v] + vs)
      case _ => None
  }

  lemma ParseIntsCons(s: string, rest: seq<string>, v: int, vs: seq<int>)
    requires ParseInt(s) == Some(v) && ParseInts(rest) == Some(vs)
    ensures ParseInts([s] + rest) == Some([v] + vs)
  {
    assert ([s] + rest)[1..] == rest;
  }

  /** Reads a COORDS attribute value back into its numbers. */
  function ParseCoords(s: string): (r: Option<seq<int>>)
    ensures r.Some? ==> |r.value| == |SplitCommas(s)|
  {
    ParseInts(SplitCommas(s))
  }

  /** Four comma-free fields joined with commas split back into the same four fields. */
  lemma SplitFour(l: string, t: string, r: string, b: string)
    requires ',' !in l && ',' !in t && ',' !in r && ',' !in b
    ensures SplitCommas(l + "," + (t + "," + (r + "," + b))) == [l, t, r, b]
  {
    SplitCommasNone(b);
    SplitCommasJoin(r, b);
    SplitCommasJoin(t, r + "," + b);
    SplitCommasJoin(l, t + "," + (r + "," + b));
  }

  /**
   * Coordinate fidelity: the COORDS text of a region reads back as exactly
   * the four numbers it was written from, in the order left, top, right, bottom.
   */
  lemma CoordsRoundTrip(left: int, top: int, right: int, bottom: int)
    ensures ParseCoords(Coords(left, top, right, bottom)) == Some([left, top, right, bottom])
  {
    var l, t, r, b := IntToDecimal(left), IntToDecimal(top), IntToDecimal(right), IntToDecimal(bottom);
    SplitFour(l, t, r, b);
    IntToDecimalRoundTrip(left);
    IntToDecimalRoundTrip(top);
    IntToDecimalRoundTrip(right);
    IntToDecimalRoundTrip(bottom);
    ParseIntsCons(b, [], bottom, []);
    assert [b] + [] == [b] && [bottom] + [] == [bottom];
    ParseIntsCons(r, [b], right, [bottom]);
    assert [r] + [b] == [r, b] && [right] + [bottom] == [right, bottom];
    ParseIntsCons(t, [r, b], top, [right, bottom]);
    assert [t] + [r, b] == [t, r, b] && [top] + [right, bottom] == [top, right, bottom];
    ParseIntsCons(l, [t, r, b], left, [top, right, bottom]);
    assert [l] + [t, r, b] == [l, t, r, b] && [left] + [top, right, bottom] == [left, top, right, bottom];
  }

  /** The image tag and the opening of the map written before the <AREA> lines. */
  function MapHead(imgpath: string): string {
    "<IMG SRC=\"" + imgpath + "\" ALT=\"wrp\" USEMAP=\"#map\">\n<MAP NAME=\"map\">\n"
  }

  const MapTail := "</MAP>\n"

  function DecodeErrorText(err: string): string {
    "<BR>Unable to decode page screenshot:<BR>" + err + "<BR>\n"
  }

  function EncodeErrorText(err: string): string {
    "<BR>Unable to encode GIF:<BR>" + err + "<BR>\n"
  }

  /**
   * Everything a capture writes to the page: only the error text when the
   * screenshot does not decode or the GIF does not encode; otherwise the
   * image tag for imgpath, the <AREA> lines and the end of the map.
   */
  function CaptureText(codec: Codec, imgpath: string, nodes: seq<Node>): string {
    match codec
    case DecodeFailed(err) => DecodeErrorText(err)
    case EncodeFailed(err) => EncodeErrorText(err)
    case Encoded(_) => MapHead(imgpath) + AreaText(Areas(nodes)) + MapTail
  }

  /**
   * On a codec failure nothing of the image map is written: the text is the
   * same whatever the key and the nodes.
   */
  lemma CaptureFailureIgnoresMap(codec: Codec, key1: string, nodes1: seq<Node>, key2: string, nodes2: seq<Node>)
    requires !codec.Encoded?
    ensures CaptureText(codec, key1, nodes1) == CaptureText(codec, key2, nodes2)
  {
  }

  /** On success the text opens with the image tag for the key and ends by closing the map. */
  lemma CaptureSuccessFraming(gif: seq<byte>, imgpath: string, nodes: seq<Node>)
    ensures var text := CaptureText(Encoded(gif), imgpath, nodes);
      |text| >= |MapHead(imgpath)| + |MapTail|
      && text[..|MapHead(imgpath)|] == MapHead(imgpath)
      && text[|text| - |MapTail|..] == MapTail
  {
    var head, body := MapHead(imgpath), AreaText(Areas(nodes));
    var text := head + body + MapTail;
    assert text[..|head|] == head;
    assert text[|text| - |MapTail|..] == MapTail;
  }

  lemma AreaTextStep(nodes: seq<Node>, i: nat)
    requires i < |nodes|
    ensures AreaText(Areas(nodes[..i + 1]))
         == AreaText(Areas(nodes[..i])) + (if Emits(nodes[i]) then AreaLine(AreaOf(nodes[i])) else "")
  {
    assert nodes[..i + 1] == nodes[..i] + [nodes[i]];
    AreasAppend(nodes[..i], [nodes[i]]);
    AreasSingle(nodes[i]);
    ConcatMapAppend(AreaLine, Areas(nodes[..i]), Areas([nodes[i]]));
    if Emits(nodes[i]) {
      ConcatMapSingle(AreaLine, AreaOf(nodes[i]));
    }
  }

  /**
   * The capture after the browser has run.  n is the random draw that names
   * the image.  On a codec failure only the error text is written and the
   * table is left alone; otherwise the GIF is stored under the image key and
   * the image map is written, one <AREA> line per emitting node in node order.
   */
  method Capture(table: GifMap, codec: Codec, n: nat, nodes: seq<Node>) returns (out: string)
    requires n < 9999
    modifies table
    ensures out == CaptureText(codec, ImageKey(n), nodes)
    ensures codec.Encoded? ==> table.entries == old(table.entries)[ImageKey(n) := codec.gif]
    ensures !codec.Encoded? ==> table.entries == old(table.entries)
  {
    if codec.DecodeFailed? {
      out := DecodeErrorText(codec.decodeError);
      return;
    }
    if codec.EncodeFailed? {
      out := EncodeErrorText(codec.encodeError);
      return;
    }
    var imgpath := ImageKey(n);
    table.Store(imgpath, codec.gif);
    var areas := WriteAreas(nodes);
    out := MapHead(imgpath) + areas + MapTail;
  }

  /**
   * The loop over the anchor nodes: a node whose box lookup or href
   * resolution failed is skipped, the others are written when they pass the
   * length filter.  The text is that of the emitted regions, in node order.
   */
  method WriteAreas(nodes: seq<Node>) returns (out: string)
    ensures out == AreaText(Areas(nodes))
  {
    out := "";
    var i := 0;
    while i < |nodes|
      invariant 0 <= i <= |nodes|
      invariant out == AreaText(Areas(nodes[..i]))
    {
      var node := nodes[i];
      AreaTextStep(nodes, i);
      if node.box.None? {
        i := i + 1;
        continue;
      }
      if node.resolved.None? {
        i := i + 1;
        continue;
      }
      var target := Target(node.resolved.value);
      if |node.box.value| > 6 && |target| > 7 {
        var b := node.box.value;
        out := out + AreaLine(Area(b[0], b[1], b[4], b[5], node.href, target));
      }
      i := i + 1;
    }
    assert nodes[..i] == nodes;
  }
}
