/** Text in which any byte may stand behind a backslash. */
module Escapes {
  import opened Bytes

  /** A byte of a text, and whether it is written with a backslash in front. */
  datatype Spelt = Spelt(byte: Byte, escaped: bool)

  function SpeltText(bs: seq<Spelt>): seq<Byte> {
    if bs == [] then [] else [bs[0].byte] + SpeltText(bs[1..])
  }

  function SpeltForm(bs: seq<Spelt>): seq<Byte> {
    if bs == [] then []
    else (if bs[0].escaped then [BACKSLASH, bs[0].byte] else [bs[0].byte]) + SpeltForm(bs[1..])
  }

  /** Nothing in the form ends it: the delimiter and the backslash stand behind a backslash. */
  predicate Enclosed(bs: seq<Spelt>, delim: Byte) {
    forall k | 0 <= k < |bs| && !bs[k].escaped :: bs[k].byte != delim && bs[k].byte != BACKSLASH
  }

  /** The form of a text with one byte more in front. */
  lemma SpeltFirst(b: Spelt, bs: seq<Spelt>, rest: seq<Byte>)
    ensures SpeltText([b] + bs) == [b.byte] + SpeltText(bs)
    ensures SpeltForm([b] + bs) + rest
         == (if b.escaped then [BACKSLASH, b.byte] else [b.byte]) + (SpeltForm(bs) + rest)
  {
    assert ([b] + bs)[1..] == bs;
    ConcatAssoc(if b.escaped then [BACKSLASH, b.byte] else [b.byte], SpeltForm(bs), rest);
  }
}
