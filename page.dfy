/**
 * The page handler: picks the URL to visit from the request's form, writes
 * the HTML head and the URL form, runs the capture and closes the page.
 */
module Page {
  import opened ImageTable
  import opened Capture

  /** The page visited when the request carries no usable url value. */
  const DefaultUrl := "https://www.bbc.com/news"

  /**
   * The URL to visit, from the values of the request's url form field: the
   * first value when there is one and it is longer than four characters,
   * the default page otherwise.
   */
  function ChooseUrl(values: seq<string>): (u: string)
    ensures |values| >= 1 && |values[0]| > 4 ==> u == values[0]
    ensures !(|values| >= 1 && |values[0]| > 4) ==> u == DefaultUrl
    ensures |u| > 4
  {
    if |values| >= 1 && |values[0]| > 4 then values[0] else DefaultUrl
  }

  /** The head of the page: title, body colour and the form that asks for a new URL. */
  function PageHead(gourl: string): string {
    Concat(["<HTML>\n<HEAD><TITLE>WRP ", gourl, "</TITLE>\n<BODY BGCOLOR=\"#F0F0F0\">",
            "<FORM ACTION=\"/\">URL: <INPUT TYPE=\"TEXT\" NAME=\"url\" VALUE=\"", gourl, "\">",
            "<INPUT TYPE=\"SUBMIT\" VALUE=\"Go\"></FORM><P>\n"])
  }

  const PageTail := "</BODY>\n</HTML>\n"

  /**
   * Serves one page request.  values are the url form field's values; codec,
   * n and nodes are what the capture of the chosen URL obtains from the
   * codecs, the random source and the browser.  Since the chosen URL is
   * always longer than four characters the capture always runs: the page is
   * the head for that URL, the capture's text, then the tail, and the image
   * table changes exactly as the capture changes it.
   */
  method PageServer(table: GifMap, values: seq<string>, codec: Codec, n: nat, nodes: seq<Node>)
    returns (out: string)
    requires n < 9999
    modifies table
    ensures out == PageHead(ChooseUrl(values)) + CaptureText(codec, ImageKey(n), nodes) + PageTail
    ensures codec.Encoded? ==> table.entries == old(table.entries)[ImageKey(n) := codec.gif]
    ensures !codec.Encoded? ==> table.entries == old(table.entries)
  {
    var gourl := ChooseUrl(values);
    out := PageHead(gourl);
    if |gourl| > 4 {
      var captured := Capture.Capture(table, codec, n, nodes);
      out := out + captured;
    }
    out := out + PageTail;
  }

  /**
   * A page request followed by the browser's two fetches of the image it
   * references, in a table that may already hold other entries: the page
   * embeds the image key, the first fetch of that key gets the GIF the
   * capture encoded, a repeated fetch gets an empty body, and the other
   * entries are as they were.
   */
  method PageThenImage(table: GifMap, values: seq<string>, gif: seq<byte>, n: nat, nodes: seq<Node>)
    returns (page: string, first: ImageReply, second: ImageReply)
    requires n < 9999
    modifies table
    ensures page == PageHead(ChooseUrl(values)) + CaptureText(Encoded(gif), ImageKey(n), nodes) + PageTail
    ensures first.body == gif && second.body == [] && second.contentLength == "0"
    ensures table.entries == old(table.entries) - {ImageKey(n)}
  {
    page := PageServer(table, values, Encoded(gif), n, nodes);
    first := ImgServer(table, ImageKey(n));
    second := ImgServer(table, ImageKey(n));
  }
}
