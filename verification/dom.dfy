/** The small part of the DOM that the snackbar utilities touch: element attributes,
    `textContent`, and the child list of the document body. */
module Dom {

  datatype Option<+T> = None | Some(value: T)

  /** An element as the announcer sees it: its attribute map and its `textContent`. */
  datatype Element = Element(attributes: map<string, string>, textContent: string)

  /** `getAttribute`: the value, or `null` (here `None`) when the attribute is absent. */
  function GetAttribute(e: Element, name: string): (v: Option<string>)
    ensures v.Some? <==> name in e.attributes
    ensures v.Some? ==> v.value == e.attributes[name]
  {
    if name in e.attributes then Some(e.attributes[name]) else None
  }

  /** `setAttribute`: the named attribute now holds `value`; nothing else changes. */
  function SetAttribute(e: Element, name: string, value: string): (r: Element)
    ensures GetAttribute(r, name) == Some(value)
    ensures forall n :: n != name ==> GetAttribute(r, n) == GetAttribute(e, n)
    ensures r.textContent == e.textContent
  {
    e.(attributes := e.attributes[name := value])
  }

  /** `removeAttribute`: the named attribute is absent; nothing else changes. */
  function RemoveAttribute(e: Element, name: string): (r: Element)
    ensures GetAttribute(r, name) == None
    ensures forall n :: n != name ==> GetAttribute(r, n) == GetAttribute(e, n)
    ensures r.textContent == e.textContent
  {
    e.(attributes := e.attributes - {name})
  }

  /** The string `setAttribute` stores for a value that came from `getAttribute`:
      DOMString conversion turns `null` into the four characters "null". */
  function AttributeValue(v: Option<string>): (s: string)
    ensures v.Some? ==> s == v.value
    ensures v.None? ==> s == "null"
  {
    match v
    case Some(x) => x
    case None => "null"
  }

  /** Two elements with the same attributes and the same text are the same element state. */
  lemma ElementExtensionality(a: Element, b: Element)
    requires forall n :: GetAttribute(a, n) == GetAttribute(b, n)
    requires a.textContent == b.textContent
    ensures a == b
  {
    forall n | n in a.attributes ensures n in b.attributes && a.attributes[n] == b.attributes[n] {
      assert GetAttribute(a, n) == GetAttribute(b, n);
    }
    forall n | n in b.attributes ensures n in a.attributes {
      assert GetAttribute(a, n) == GetAttribute(b, n);
    }
  }

  /** Node identities; a freshly created node has an identity not yet in the tree. */
  type NodeId = nat

  /** `appendChild` of a node that is not in the tree yet: it becomes the last child. */
  function AppendChild(children: seq<NodeId>, n: NodeId): (r: seq<NodeId>)
    requires n !in children
    ensures |r| == |children| + 1 && r[|children|] == n
    ensures r[..|children|] == children
  {
    children + [n]
  }

  /** Position of the first occurrence of `n` among `children`. */
  function IndexOf(children: seq<NodeId>, n: NodeId): (i: nat)
    requires n in children
    ensures i < |children| && children[i] == n
    ensures n !in children[..i]
  {
    if children[0] == n then 0
    else
      var j := IndexOf(children[1..], n);
      assert children[..j + 1] == [children[0]] + children[1..][..j];
      j + 1
  }

  /** `removeChild`: the occurrence of `n` leaves the child list and the other children
      keep their order. */
  function RemoveChild(children: seq<NodeId>, n: NodeId): (r: seq<NodeId>)
    requires n in children
    ensures r == children[..IndexOf(children, n)] + children[IndexOf(children, n) + 1..]
  {
    if children[0] == n then children[1..]
    else
      var j := IndexOf(children[1..], n);
      assert children[..j + 1] == [children[0]] + children[1..][..j];
      assert children[j + 2..] == children[1..][j + 1..];
      [children[0]] + RemoveChild(children[1..], n)
  }

  /** Appending a fresh node and removing it again leaves the child list as it was. */
  lemma RemoveAppendedChild(children: seq<NodeId>, n: NodeId)
    requires n !in children
    ensures RemoveChild(AppendChild(children, n), n) == children
  {
    var a := AppendChild(children, n);
    var i := IndexOf(a, n);
    assert i == |children|;
    assert a[..i] == children;
  }
}
