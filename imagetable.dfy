/**
 * The process-wide one-shot image table (the Go map `gifmap`), the image keys
 * a capture stores under, and the handler that serves and retires an entry.
 */
module ImageTable {
  import opened Wrappers
  import opened Decimal

  type byte = b: int | 0 <= b < 256

  /**
   * The key a capture stores its GIF under, for a draw n of rand.Intn(9999):
   * "/img/", the draw printed with %04d, then ".gif".
   */
  function ImageKey(n: nat): (key: string)
    requires n < 9999
    ensures |key| == 13
    ensures key[..5] == "/img/" && key[9..] == ".gif"
    ensures AllDigits(key[5..9]) && ParseNat(key[5..9]) == Some(n)
  {
    var digits := ZeroPad4(n);
    ZeroPad4RoundTrip(n);
    var key := "/img/" + digits + ".gif";
    assert key[5..9] == digits;
    key
  }

  /** Two draws give the same key only when they are the same draw. */
  lemma ImageKeyInjective(n: nat, m: nat)
    requires n < 9999 && m < 9999
    ensures ImageKey(n) == ImageKey(m) <==> n == m
  {
    if ImageKey(n) == ImageKey(m) {
      assert ParseNat(ImageKey(n)[5..9]) == Some(m);
    }
  }

  /** What indexing the Go map yields: the stored bytes, or the empty buffer when the key is absent. */
  function Lookup(entries: map<string, seq<byte>>, key: string): (gif: seq<byte>)
    ensures key in entries ==> gif == entries[key]
    ensures key !in entries ==> gif == []
  {
    if key in entries then entries[key] else []
  }

  /** The image table: a map from request path to the GIF bytes waiting to be fetched. */
  class GifMap {
    var entries: map<string, seq<byte>>

    /** The table starts empty. */
    constructor ()
      ensures entries == map[]
    {
      entries := map[];
    }

    /** Inserts the bytes under key; an earlier entry for the same key is overwritten. */
    method Store(key: string, gif: seq<byte>)
      modifies this
      ensures entries == old(entries)[key := gif]
    {
      entries := entries[key := gif];
    }

    /** Reads the entry for key (empty when absent) and deletes the key. */
    method Take(key: string) returns (gif: seq<byte>)
      modifies this
      ensures gif == Lookup(old(entries), key)
      ensures entries == old(entries) - {key}
      ensures key !in entries
    {
      gif := Lookup(entries, key);
      entries := entries - {key};
    }
  }

  /** The reply the image handler writes: two headers and the body. */
  datatype ImageReply = ImageReply(contentType: string, contentLength: string, body: seq<byte>)

  /**
   * The image handler: serves whatever the table holds for the request path,
   * with Content-Length the decimal length of the body, and removes the path
   * from the table.  An absent path is answered with an empty body.
   */
  method ImgServer(table: GifMap, path: string) returns (reply: ImageReply)
    modifies table
    ensures reply.contentType == "image/gif"
    ensures reply.body == Lookup(old(table.entries), path)
    ensures reply.contentLength == NatToDecimal(|reply.body|)
    ensures ParseNat(reply.contentLength) == Some(|reply.body|)
    ensures path !in old(table.entries) ==> reply.body == [] && reply.contentLength == "0"
    ensures table.entries == old(table.entries) - {path}
  {
    var gif := table.Take(path);
    var length := NatToDecimal(|gif|);
    NatToDecimalRoundTrip(|gif|);
    reply := ImageReply("image/gif", length, gif);
  }

  /**
   * One-shot fetch, in a table that may already hold other captures'
   * entries: after a capture stores its bytes, the first fetch of the key
   * gets them and a second fetch of the same key gets an empty body.  The
   * other entries are as they were before the store.
   */
  method FetchIsOneShot(table: GifMap, n: nat, gif: seq<byte>) returns (first: ImageReply, second: ImageReply)
    requires n < 9999
    modifies table
    ensures first.body == gif && first.contentLength == NatToDecimal(|gif|)
    ensures second.body == [] && second.contentLength == "0"
    ensures table.entries == old(table.entries) - {ImageKey(n)}
  {
    table.Store(ImageKey(n), gif);
    first := ImgServer(table, ImageKey(n));
    second := ImgServer(table, ImageKey(n));
  }

  /**
   * Last writer wins, whatever the table held before: two captures that draw
   * the same number store under the same key, and the fetch serves the
   * second capture's bytes.
   */
  method SameDrawOverwrites(table: GifMap, n: nat, gif1: seq<byte>, gif2: seq<byte>) returns (reply: ImageReply)
    requires n < 9999
    modifies table
    ensures reply.body == gif2
    ensures table.entries == old(table.entries) - {ImageKey(n)}
  {
    table.Store(ImageKey(n), gif1);
    table.Store(ImageKey(n), gif2);
    reply := ImgServer(table, ImageKey(n));
  }

  /**
   * Captures that draw different numbers do not disturb each other, whatever
   * the table held before: each key serves its own bytes, whichever is
   * fetched first.
   */
  method DistinctDrawsKeepBoth(table: GifMap, n: nat, m: nat, gif1: seq<byte>, gif2: seq<byte>)
    returns (reply2: ImageReply, reply1: ImageReply)
    requires n < 9999 && m < 9999 && n != m
    modifies table
    ensures reply1.body == gif1 && reply2.body == gif2
    ensures table.entries == old(table.entries) - {ImageKey(n), ImageKey(m)}
  {
    table.Store(ImageKey(n), gif1);
    table.Store(ImageKey(m), gif2);
    ImageKeyInjective(n, m);
    reply2 := ImgServer(table, ImageKey(m));
    reply1 := ImgServer(table, ImageKey(n));
  }
}
