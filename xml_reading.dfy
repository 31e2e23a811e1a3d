/**
 Reading a list of sibling XML nodes: text nodes are skipped, every element
 node goes through the node reader, and the per-node results are joined in
 document order. The node reader itself (dispatch on the element's name) is
 outside this model and is passed in as a function.
 */
module XmlReading {
  import opened ReadResults
  import opened ReadResultLaws

  datatype XmlNode =
    | XmlElement(name: string, attributes: map<string, string>, children: seq<XmlNode>)
    | XmlText(value: string)

  type XmlElementNode = n: XmlNode | n.XmlElement? witness XmlElement("", map[], [])

  /** The element nodes of `nodes`, in document order. */
  function ElementNodes(nodes: seq<XmlNode>): seq<XmlElementNode>
  {
    if |nodes| == 0 then []
    else
      var last := nodes[|nodes| - 1];
      ElementNodes(nodes[..|nodes| - 1]) + (if last.XmlElement? then [last] else [])
  }

  /** `_read_xml_elements`, with `read` standing for the external node reader. */
  function ReadXmlElements<E, X>(nodes: seq<XmlNode>, read: XmlElementNode -> ReadResult<E, X>): ReadResult<E, X>
  {
    var elements := ElementNodes(nodes);
    Concat(seq(|elements|, i requires 0 <= i < |elements| => read(elements[i])))
  }

  /** Reading one more sibling appends that sibling's result, in every
      channel, after the result of the siblings before it; a text node
      contributes nothing. */
  lemma ReadXmlElementsSnoc<E, X>(nodes: seq<XmlNode>, n: XmlNode, read: XmlElementNode -> ReadResult<E, X>)
    ensures n.XmlElement? ==> ReadXmlElements(nodes + [n], read) == Concat([ReadXmlElements(nodes, read), read(n)])
    ensures n.XmlText? ==> ReadXmlElements(nodes + [n], read) == ReadXmlElements(nodes, read)
  {
    assert (nodes + [n])[..|nodes|] == nodes;
    var before := ElementNodes(nodes);
    var rs := seq(|before|, i requires 0 <= i < |before| => read(before[i]));
    if n.XmlElement? {
      var after := ElementNodes(nodes + [n]);
      assert after == before + [n];
      assert seq(|after|, i requires 0 <= i < |after| => read(after[i])) == rs + [read(n)];
      ConcatAppend(rs, [read(n)]);
      ConcatSingleton(read(n));
    } else {
      var after := ElementNodes(nodes + [n]);
      assert after == before + [];
      assert seq(|after|, i requires 0 <= i < |after| => read(after[i])) == rs;
    }
  }

  /** A message of the joined result is exactly a message that the reader
      produced for one of the element nodes. */
  lemma {:induction false} ReadXmlElementsMessages<E, X>(nodes: seq<XmlNode>, read: XmlElementNode -> ReadResult<E, X>, m: Message)
    ensures m in ReadXmlElements(nodes, read).messages
        <==> exists i :: 0 <= i < |nodes| && nodes[i].XmlElement? && m in read(nodes[i]).messages
    decreases |nodes|
  {
    if |nodes| == 0 {
      ConcatOfNothing<E, X>();
    } else {
      var init := nodes[..|nodes| - 1];
      var n := nodes[|nodes| - 1];
      assert init + [n] == nodes;
      ReadXmlElementsSnoc(init, n, read);
      ReadXmlElementsMessages(init, read, m);
      if n.XmlElement? {
        ChannelsOfPair(ReadXmlElements(init, read), read(n));
      }
      if exists i :: 0 <= i < |nodes| && nodes[i].XmlElement? && m in read(nodes[i]).messages {
        var i :| 0 <= i < |nodes| && nodes[i].XmlElement? && m in read(nodes[i]).messages;
        if i < |init| {
          assert init[i] == nodes[i];
        }
      }
      if exists i :: 0 <= i < |init| && init[i].XmlElement? && m in read(init[i]).messages {
        var i :| 0 <= i < |init| && init[i].XmlElement? && m in read(init[i]).messages;
        assert nodes[i] == init[i];
      }
    }
  }
}
