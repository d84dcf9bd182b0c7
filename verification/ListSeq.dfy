/** Between sequences and the linked lists of AlpmList. */
module ListSeq {
  import opened AlpmList

  method FromSeq<T>(xs: seq<T>) returns (list: Node?<T>, ghost ns: seq<Node<T>>)
    ensures IsList(list, ns) && Data(ns) == xs
    ensures forall k :: 0 <= k < |ns| ==> fresh(ns[k])
  {
    list, ns := null, [];
    for i := 0 to |xs|
      invariant IsList(list, ns) && |ns| == i && forall k :: 0 <= k < i ==> fresh(ns[k]) && ns[k].data == xs[k]
    {
      var ptr;
      list, ptr := Append(list, xs[i], ns);
      ns := ns + [ptr];
    }
  }

  method ToSeq<T>(list: Node?<T>, ghost ns: seq<Node<T>>) returns (xs: seq<T>)
    requires IsList(list, ns)
    ensures xs == Data(ns)
  {
    xs := [];
    var p := list;
    while p != null
      invariant |xs| <= |ns| && p == (if |xs| < |ns| then ns[|xs|] else null) && xs == Data(ns)[..|xs|]
      decreases |ns| - |xs|
    {
      xs, p := xs + [p.data], p.next;
    }
  }
}
