/** XMLParser: looking up elements by a path of names. */
module XmlLookup {
  import opened Basics
  import opened StringSplit

  datatype Attribute = Attribute(name: string, value: string)

  datatype Element = Element(name: string, text: Option<string>, attributes: seq<Attribute>, children: seq<Element>)

  datatype XMLNode = XMLNode(text: string, attrs: map<string, string>)

  /** Of attributes with the same name the first counts. */
  function AttrMap(attributes: seq<Attribute>): (m: map<string, string>) {
    if attributes == [] then map[]
    else
      var last := attributes[|attributes| - 1];
      var m := AttrMap(attributes[..|attributes| - 1]);
      if last.name in m then m else m[last.name := last.value]
  }

  lemma {:induction false} FirstAttribute(attributes: seq<Attribute>, i: nat)
    requires i < |attributes| && IsFirst(attributes, i)
    ensures attributes[i].name in AttrMap(attributes) && AttrMap(attributes)[attributes[i].name] == attributes[i].value
  {
    var n := |attributes| - 1;
    if i < n {
      FirstAttribute(attributes[..n], i);
    } else {
      NoAttribute(attributes[..n], attributes[i].name);
    }
  }

  lemma {:induction false} NoAttribute(attributes: seq<Attribute>, name: string)
    requires forall j :: 0 <= j < |attributes| ==> attributes[j].name != name
    ensures name !in AttrMap(attributes)
  {
    if attributes != [] {
      NoAttribute(attributes[..|attributes| - 1], name);
    }
  }

  function NodeOf(e: Element): XMLNode {
    XMLNode(match e.text case Some(t) => t case None => "", AttrMap(e.attributes))
  }

  /** A node has the text of its element, or none, and of its attributes each name with its first value. */
  ghost predicate Carries(n: XMLNode, e: Element) {
    && n.text == (if e.text.Some? then e.text.value else "")
    && (forall name :: name in n.attrs ==> exists i :: 0 <= i < |e.attributes| && e.attributes[i].name == name)
    && forall i :: 0 <= i < |e.attributes| && IsFirst(e.attributes, i) ==>
         e.attributes[i].name in n.attrs && n.attrs[e.attributes[i].name] == e.attributes[i].value
  }

  predicate IsFirst(attributes: seq<Attribute>, i: nat)
    requires i < |attributes|
  {
    forall j :: 0 <= j < i ==> attributes[j].name != attributes[i].name
  }

  lemma NodeCarries(e: Element)
    ensures Carries(NodeOf(e), e)
  {
    forall i | 0 <= i < |e.attributes| && IsFirst(e.attributes, i)
      ensures e.attributes[i].name in NodeOf(e).attrs
      ensures NodeOf(e).attrs[e.attributes[i].name] == e.attributes[i].value
    {
      FirstAttribute(e.attributes, i);
    }
    forall name | name in NodeOf(e).attrs
      ensures exists i :: 0 <= i < |e.attributes| && e.attributes[i].name == name
    {
      if forall i :: 0 <= i < |e.attributes| ==> e.attributes[i].name != name {
        NoAttribute(e.attributes, name);
      }
    }
  }

  // ---------------------------------------------------------------- the look-up, and the full search

  /** The first child of that name from `i` on; the number of children if there is none. */
  function FirstMatch(children: seq<Element>, name: string, i: nat): (k: nat)
    requires i <= |children|
    ensures i <= k <= |children| && (forall j :: i <= j < k ==> children[j].name != name)
    ensures k < |children| ==> children[k].name == name
    decreases |children| - i
  {
    if i == |children| || children[i].name == name then i else FirstMatch(children, name, i + 1)
  }

  /** The nodes of the first `n` children that have that name. */
  function Leaves(children: seq<Element>, name: string, n: nat): seq<XMLNode>
    requires n <= |children|
  {
    if n == 0 then []
    else Leaves(children, name, n - 1) + if children[n - 1].name == name then [NodeOf(children[n - 1])] else []
  }

  /** Follows the first matching child at each inner level, and takes all matches on the last one. */
  function Lookup(e: Element, keys: seq<string>): seq<XMLNode>
    requires keys != []
    decreases e
  {
    if e.name != keys[0] then []
    else if |keys| == 1 then [NodeOf(e)]
    else if |keys| == 2 then Leaves(e.children, keys[1], |e.children|)
    else
      var i := FirstMatch(e.children, keys[1], 0);
      if i == |e.children| then [] else Lookup(e.children[i], keys[1..])
  }

  /** Every element that the path leads to, in document order. */
  function Search(e: Element, keys: seq<string>): seq<XMLNode>
    requires keys != []
    decreases e
  {
    if e.name != keys[0] then [] else if |keys| == 1 then [NodeOf(e)] else SearchAll(e.children, keys[1..])
  }

  function SearchAll(children: seq<Element>, keys: seq<string>): seq<XMLNode>
    requires keys != []
    decreases children
  {
    if children == [] then [] else Search(children[0], keys) + SearchAll(children[1..], keys)
  }

  lemma {:induction false} SearchLeaves(children: seq<Element>, name: string, n: nat)
    requires n <= |children|
    ensures SearchAll(children[..n], [name]) == Leaves(children, name, n)
  {
    if n > 0 {
      SearchLeaves(children, name, n - 1);
      assert children[..n][..n - 1] == children[..n - 1];
      SearchMore(children[..n], [name], n - 1);
      assert children[..n][n - 1..] == [children[n - 1]];
      assert SearchAll([children[n - 1]], [name]) == Search(children[n - 1], [name]) + SearchAll([], [name]);
    }
  }

  lemma {:induction false} SearchMore(children: seq<Element>, keys: seq<string>, n: nat)
    requires keys != [] && n <= |children|
    ensures SearchAll(children, keys) == SearchAll(children[..n], keys) + SearchAll(children[n..], keys)
    decreases n
  {
    if n > 0 {
      SearchMore(children[1..], keys, n - 1);
      assert children[..n][1..] == children[1..][..n - 1] && children[1..][n - 1..] == children[n..];
    } else {
      assert children[..0] == [] && children[0..] == children;
    }
  }

  lemma {:induction false} SearchNone(children: seq<Element>, keys: seq<string>)
    requires keys != [] && forall j :: 0 <= j < |children| ==> children[j].name != keys[0]
    ensures SearchAll(children, keys) == []
  {
    if children != [] {
      SearchNone(children[1..], keys);
    }
  }

  /** The names on the way from `e` down to `d` are the keys. */
  ghost predicate Leads(e: Element, keys: seq<string>, d: Element)
    requires keys != []
    decreases |keys|
  {
    && e.name == keys[0]
    && if |keys| == 1 then d == e
       else exists i :: 0 <= i < |e.children| && Leads(e.children[i], keys[1..], d)
  }

  /** The full search gives the nodes of exactly the elements that the path leads to. */
  lemma {:induction false} SearchLeads(e: Element, keys: seq<string>, n: XMLNode)
    requires keys != []
    ensures n in Search(e, keys) <==> exists d :: Leads(e, keys, d) && NodeOf(d) == n
    decreases e, 0
  {
    if e.name == keys[0] {
      if |keys| == 1 {
        assert n == NodeOf(e) ==> Leads(e, keys, e);
      } else {
        SearchAllLeads(e.children, keys[1..], n);
        if n in Search(e, keys) {
          var i, d :| 0 <= i < |e.children| && Leads(e.children[i], keys[1..], d) && NodeOf(d) == n;
          assert Leads(e, keys, d);
        }
        if d :| Leads(e, keys, d) && NodeOf(d) == n {
          var i :| 0 <= i < |e.children| && Leads(e.children[i], keys[1..], d);
        }
      }
    }
  }

  lemma {:induction false} SearchAllLeads(children: seq<Element>, keys: seq<string>, n: XMLNode)
    requires keys != []
    ensures n in SearchAll(children, keys) <==>
              exists i, d :: 0 <= i < |children| && Leads(children[i], keys, d) && NodeOf(d) == n
    decreases children, 1
  {
    if children != [] {
      SearchLeads(children[0], keys, n);
      SearchAllLeads(children[1..], keys, n);
      if n in SearchAll(children[1..], keys) {
        var i, d :| 0 <= i < |children[1..]| && Leads(children[1..][i], keys, d) && NodeOf(d) == n;
        assert Leads(children[i + 1], keys, d);
      }
      if i, d :| 0 < i < |children| && Leads(children[i], keys, d) && NodeOf(d) == n {
        assert Leads(children[1..][i - 1], keys, d);
      }
    }
  }

  /** Whether no inner level has a second child of the wanted name below which something is found. */
  predicate Unambiguous(e: Element, keys: seq<string>)
    requires keys != []
    decreases e
  {
    e.name == keys[0] && |keys| > 2 ==>
      var i := FirstMatch(e.children, keys[1], 0);
      i < |e.children| ==> Unambiguous(e.children[i], keys[1..]) && SearchAll(e.children[i + 1..], keys[1..]) == []
  }

  /** What is looked up comes first in what a full search finds, and is all of it exactly when the first
      matching children have no rivals. */
  lemma {:induction false} LookupIsPrefix(e: Element, keys: seq<string>)
    requires keys != []
    ensures Lookup(e, keys) <= Search(e, keys)
    ensures Lookup(e, keys) == Search(e, keys) <==> Unambiguous(e, keys)
    decreases e
  {
    if e.name == keys[0] && |keys| == 2 {
      LastLevel(e, keys);
    } else if e.name == keys[0] && |keys| > 2 {
      var i, inner := FirstMatch(e.children, keys[1], 0), keys[1..];
      if i < |e.children| {
        LookupIsPrefix(e.children[i], inner);
      }
      ForkPrefix(e.children, inner, i);
      InnerLevel(e, keys, i);
    }
  }

  lemma LastLevel(e: Element, keys: seq<string>)
    requires |keys| == 2 && e.name == keys[0]
    ensures Lookup(e, keys) == Search(e, keys) && Unambiguous(e, keys)
  {
    SearchLeaves(e.children, keys[1], |e.children|);
    assert e.children[..|e.children|] == e.children && keys[1..] == [keys[1]];
  }

  lemma InnerLevel(e: Element, keys: seq<string>, i: nat)
    requires |keys| > 2 && e.name == keys[0] && i == FirstMatch(e.children, keys[1], 0)
    ensures Lookup(e, keys) == if i == |e.children| then [] else Lookup(e.children[i], keys[1..])
    ensures Search(e, keys) == SearchAll(e.children, keys[1..])
    ensures Unambiguous(e, keys) <==>
              i == |e.children| ||
              (Unambiguous(e.children[i], keys[1..]) && SearchAll(e.children[i + 1..], keys[1..]) == [])
  {
  }

  lemma ForkPrefix(children: seq<Element>, keys: seq<string>, i: nat)
    requires keys != [] && i == FirstMatch(children, keys[0], 0)
    requires i < |children| ==>
               && Lookup(children[i], keys) <= Search(children[i], keys)
               && (Lookup(children[i], keys) == Search(children[i], keys) <==> Unambiguous(children[i], keys))
    ensures var found := if i == |children| then [] else Lookup(children[i], keys);
            && found <= SearchAll(children, keys)
            && (found == SearchAll(children, keys) <==>
                i == |children| || (Unambiguous(children[i], keys) && SearchAll(children[i + 1..], keys) == []))
  {
    SearchFork(children, keys, i);
    if i < |children| {
      PrefixOfConcat(Lookup(children[i], keys), Search(children[i], keys), SearchAll(children[i + 1..], keys));
    }
  }

  lemma SearchFork(children: seq<Element>, keys: seq<string>, i: nat)
    requires keys != [] && i == FirstMatch(children, keys[0], 0)
    ensures SearchAll(children, keys) ==
            if i == |children| then [] else Search(children[i], keys) + SearchAll(children[i + 1..], keys)
  {
    SearchMore(children, keys, i);
    SearchNone(children[..i], keys);
    if i < |children| {
      assert children[i..][1..] == children[i + 1..];
    }
  }

  lemma PrefixOfConcat<T>(a: seq<T>, b: seq<T>, c: seq<T>)
    requires a <= b
    ensures a <= b + c && (a == b + c <==> a == b && c == [])
  {
    assert a == b + c ==> |a| == |b| + |c|;
  }

  // ---------------------------------------------------------------- the code

  /** The codes of the source: no element, no key, wrong root, nothing found. */
  function Status(father: Option<Element>, keys: seq<string>): int {
    if father.None? then -1
    else if keys == [] then -2
    else if father.value.name != keys[0] then -3
    else if Lookup(father.value, keys) == [] then -4 else 0
  }

  function Found(father: Option<Element>, keys: seq<string>): (nodes: seq<XMLNode>)
    ensures nodes != [] <==> Status(father, keys) == 0
  {
    if father.None? || keys == [] then [] else Lookup(father.value, keys)
  }

  /** Every node found has text and attributes of an element that the path leads to; and the code tells apart a
      missing root, an empty path, a root of another name, nothing found and success. */
  lemma FoundLeads(root: Option<Element>, keys: seq<string>)
    ensures var code := Status(root, keys);
            && (code == -1 <==> root.None?)
            && (code == -2 <==> root.Some? && keys == [])
            && (code == -3 <==> root.Some? && keys != [] && root.value.name != keys[0])
            && (code == 0 <==> Found(root, keys) != [])
            && (code == -4 || code == 0 <==> root.Some? && keys != [] && root.value.name == keys[0])
    ensures forall n :: n in Found(root, keys) ==> exists d :: Leads(root.value, keys, d) && Carries(n, d)
  {
    forall n | n in Found(root, keys)
      ensures exists d :: Leads(root.value, keys, d) && Carries(n, d)
    {
      LookupIsPrefix(root.value, keys);
      SearchLeads(root.value, keys, n);
      var d :| Leads(root.value, keys, d) && NodeOf(d) == n;
      NodeCarries(d);
    }
  }

  class XMLParser {
    const root: Option<Element>
    var lstKey: seq<string>
    var vecNode: seq<XMLNode>

    constructor (root: Option<Element>)
      ensures this.root == root
    {
      this.root, lstKey, vecNode := root, [], [];
    }

    method CreateNode(e: Element)
      modifies this`vecNode
      ensures vecNode == old(vecNode) + [NodeOf(e)]
      ensures NodeOf(e).text == if e.text.Some? then e.text.value else ""
    {
      var text := match e.text case Some(t) => t case None => "";
      var attrs := map[];
      for i := 0 to |e.attributes|
        invariant attrs == AttrMap(e.attributes[..i])
      {
        var attr := e.attributes[i];
        assert e.attributes[..i + 1][..i] == e.attributes[..i];
        if attr.name !in attrs {
          attrs := attrs[attr.name := attr.value];
        }
      }
      assert e.attributes[..|e.attributes|] == e.attributes;
      vecNode := vecNode + [XMLNode(text, attrs)];
    }

    /** Takes the keys off the list as it descends. */
    method GetNode(father: Option<Element>) returns (nRet: int)
      requires vecNode == []
      modifies this`lstKey, this`vecNode
      ensures vecNode == Found(father, old(lstKey)) && nRet == Status(father, old(lstKey))
      decreases |lstKey|
    {
      if father.None? {
        return -1;
      }
      if lstKey == [] {
        return -2;
      }
      var e := father.value;
      if e.name != lstKey[0] {
        return -3;
      }
      if |lstKey| == 1 {
        CreateNode(e);
      } else {
        ghost var keys := lstKey;
        lstKey := lstKey[1..];
        for i := 0 to |e.children|
          invariant lstKey == keys[1..]
          invariant |keys| == 2 ==> vecNode == Leaves(e.children, keys[1], i)
          invariant |keys| > 2 ==> vecNode == []
          invariant |keys| > 2 ==> FirstMatch(e.children, keys[1], 0) == FirstMatch(e.children, keys[1], i)
        {
          var child := e.children[i];
          if child.name == lstKey[0] {
            if |lstKey| == 1 {
              CreateNode(child);
            } else {
              nRet := GetNode(Some(child));
              return;
            }
          }
        }
      }
      nRet := if vecNode == [] then -4 else 0;
    }

    /** The keys are the parts of `key` between slashes and backslashes. */
    method GetNodes(key: string) returns (nRet: int)
      modifies this`lstKey, this`vecNode
      ensures var keys := Tokens(key, {'/', '\\'}, 0);
              if key == "" then nRet == -1 && vecNode == old(vecNode)
              else nRet == Status(root, keys) && vecNode == Found(root, keys)
    {
      if key == "" {
        return -1;
      }
      lstKey := Tokenize(key, "/\\", -1);
      assert CharsOf("/\\") == {'/', '\\'};
      vecNode := [];
      nRet := GetNode(root);
    }
  }
}
