/**
 * A header map written out as a header section, as response Display does
 * it: one "name: value" line per entry in the map's iteration order, then
 * the blank line. The lemmas here show that the library's own header loop
 * and body read give such a section, and the body after it, back.
 */
module HeaderMap {
  import opened Text
  import Utf8
  import opened Wrappers
  import opened Wire

  /**
   * order lists every key of keys exactly once: the order in which
   * iteration over the map visits its entries, which the source leaves
   * unspecified.
   */
  ghost predicate IsOrdering(order: seq<string>, keys: set<string>)
  {
    && (forall k :: k in keys <==> k in order)
    && (forall i, j :: 0 <= i < j < |order| ==> order[i] != order[j])
  }

  /** The header lines written for the keys in order. */
  function HeaderLines(headers: map<string, string>, order: seq<string>): seq<string>
    requires forall k :: k in order ==> k in headers
  {
    seq(|order|, i requires 0 <= i < |order| => HeaderText(order[i], headers[order[i]]))
  }

  /** The entries of the map, in the given order. */
  function Entries(headers: map<string, string>, order: seq<string>): seq<Header>
    requires forall k :: k in order ==> k in headers
  {
    seq(|order|, i requires 0 <= i < |order| => Header(order[i], headers[order[i]]))
  }

  /** The header section: the header lines, then the blank line. */
  function HeaderSectionText(headers: map<string, string>, order: seq<string>): string
    requires forall k :: k in order ==> k in headers
  {
    Concat(HeaderLines(headers, order)) + "\r\n"
  }

  /** One more key visited is one more header line. */
  lemma LinesSnoc(headers: map<string, string>, order: seq<string>, key: string)
    requires forall k :: k in order ==> k in headers
    requires key in headers
    ensures HeaderLines(headers, order + [key]) == HeaderLines(headers, order) + [HeaderText(key, headers[key])]
  {
  }

  /** A sequence without repeats has as many elements as the set of its elements. */
  lemma {:induction false} DistinctCard(order: seq<string>)
    requires forall i, j :: 0 <= i < j < |order| ==> order[i] != order[j]
    ensures |set k | k in order| == |order|
    decreases |order|
  {
    if order != [] {
      DistinctCard(order[1..]);
      assert (set k | k in order) == {order[0]} + (set k | k in order[1..]);
      assert order[0] !in order[1..];
    }
  }

  /**
   * There are exactly as many header lines as the map has entries, and
   * every entry's "name: value" line is among them.
   */
  lemma LinesCoverMap(headers: map<string, string>, order: seq<string>)
    requires IsOrdering(order, headers.Keys)
    ensures var lines := HeaderLines(headers, order);
      && |lines| == |headers|
      && forall k :: k in headers ==> exists i :: 0 <= i < |lines| && lines[i] == HeaderText(k, headers[k])
  {
    var lines := HeaderLines(headers, order);
    DistinctCard(order);
    assert (set k | k in order) == headers.Keys;
    forall k | k in headers ensures exists i :: 0 <= i < |lines| && lines[i] == HeaderText(k, headers[k]) {
      var i :| 0 <= i < |order| && order[i] == k;
      assert lines[i] == HeaderText(k, headers[k]);
    }
  }

  /**
   * Header fields that the header loop reads back unchanged: lower-case
   * names, no ": " and no line break in names and values, no trailing
   * whitespace in values, and well-formed UTF-8 throughout.
   */
  ghost predicate Readable(headers: map<string, string>)
  {
    forall k :: k in headers ==>
      && IsLower(k) && CleanField(k) && Utf8.Valid(k)
      && CleanField(headers[k]) && !EndsInWhitespace(headers[k]) && Utf8.Valid(headers[k])
  }

  /** Each written header line is read by the header loop as the entry it was written from. */
  lemma LinesReadBack(headers: map<string, string>, order: seq<string>)
    requires IsOrdering(order, headers.Keys) && Readable(headers)
    ensures ParsesAs(Classify, HeaderLines(headers, order), Entries(headers, order))
  {
    var lines, hs := HeaderLines(headers, order), Entries(headers, order);
    forall i | 0 <= i < |lines| ensures IsLine(lines[i]) && Classify(lines[i]) == Entry(hs[i]) {
      HeaderLineClassified(order[i], headers[order[i]]);
      LowerOfLower(order[i]);
    }
    ParsesAsEach(Classify, lines, hs);
  }

  /** Inserting the entries of a map, each key once, in any order, rebuilds the map. */
  lemma EntriesRebuild(headers: map<string, string>, order: seq<string>)
    requires IsOrdering(order, headers.Keys)
    ensures InsertAll(Entries(headers, order), map[]) == headers
  {
    var hs := Entries(headers, order);
    var r := InsertAll(hs, map[]);
    forall k | k in headers ensures k in r && r[k] == headers[k] {
      var i :| 0 <= i < |order| && order[i] == k;
      LastWins(hs, map[], i);
    }
    forall k | k in r ensures k in headers {
      NamesIndex(hs, k);
    }
  }

  /**
   * The body goes with the map: content-length holds the decimal length of
   * a body that fits in a usize, or there is no content-length and no body
   * (a request without a body, or a response never given one).
   */
  predicate BodyFramed(headers: map<string, string>, body: string)
  {
    if ContentLength in headers then headers[ContentLength] == Decimal(|body|) && |body| <= UsizeMax
    else body == ""
  }

  /**
   * For any header loop whose line decision reads each written header line
   * as the entry it was written from and the blank line as the end of the
   * headers: after whatever first line a, the loop and the body read give
   * back the map and the body and consume the whole text, provided the
   * body goes with the map.
   */
  lemma MessageReadBack(classify: string -> LineKind, a: string, headers: map<string, string>, body: string, order: seq<string>)
    requires IsOrdering(order, headers.Keys)
    requires ParsesAs(classify, HeaderLines(headers, order), Entries(headers, order))
    requires classify("\r\n") == Ends
    requires BodyFramed(headers, body) && Utf8.Valid(body)
    ensures var text := a + HeaderSectionText(headers, order) + body;
      ReadMessage(classify, text, |a|) == Success(Message(headers, body, |text|))
  {
    var head := a + HeaderSectionText(headers, order);
    assert IsLine("\r\n");
    WrittenMessage(classify, a, HeaderLines(headers, order), Entries(headers, order), "\r\n", body);
    EntriesRebuild(headers, order);
    if ContentLength in headers {
      ParseDecimal(|body|);
      BodyAtEnd(head, body, headers);
    } else {
      assert head + body == head;
    }
  }

  /**
   * The library's header loop and body read, run on a readable map
   * written as a header section after any first line a and followed by a
   * body that goes with the map, give the map and the body back and
   * consume the whole text.
   */
  lemma SectionReadBack(a: string, headers: map<string, string>, body: string, order: seq<string>)
    requires IsOrdering(order, headers.Keys) && Readable(headers)
    requires BodyFramed(headers, body) && Utf8.Valid(body)
    ensures var text := a + HeaderSectionText(headers, order) + body;
      ReadMessage(Classify, text, |a|) == Success(Message(headers, body, |text|))
  {
    LinesReadBack(headers, order);
    BlankLineEnds();
    MessageReadBack(Classify, a, headers, body, order);
  }
}
