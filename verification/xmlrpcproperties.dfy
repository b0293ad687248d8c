/** How the XML-RPC serializer and parser fit together: a value the client
    writes is read back as the same value, the fault document of the XML-RPC
    specification reads as its code and message, and a struct read as line 78
    reads it picks up the members of the structs nested in it. */
module XmlRpcProperties {
  import opened Wrappers
  import opened Text
  import opened XmlDom
  import opened XmlRpcSerialize
  import opened XmlRpcParse

  /** The `Number` conversion gives back every integer from its decimal text. */
  ghost predicate ReadsIntegers(number: string -> int) {
    forall n: int :: number(IntString(n)) == n
  }

  predicate Scalar(v: JsValue) {
    v.JsString? || v.JsNumber?
  }

  /** A scalar, or an array or object of scalars. */
  predicate Flat(v: JsValue) {
    || Scalar(v)
    || (v.JsArray? && forall k | 0 <= k < |v.items| :: Scalar(v.items[k]))
    || (v.JsObject? && forall k | 0 <= k < |v.entries| :: Scalar(v.entries[k].value))
  }

  function ScalarValue(v: JsValue): RpcValue
    requires Scalar(v)
  {
    if v.JsString? then RpcString(v.s) else RpcInt(v.n)
  }

  /** Each property's name with its value. */
  function PropertyPairs(entries: seq<Property>): (r: seq<(string, RpcValue)>)
    requires forall k | 0 <= k < |entries| :: Scalar(entries[k].value)
    decreases |entries|
  {
    if |entries| == 0 then []
    else [(entries[0].key, ScalarValue(entries[0].value))] + PropertyPairs(entries[1..])
  }

  /** Each element's index from `index` on, in decimal, with its value. */
  function IndexPairs(items: seq<JsValue>, index: nat): (r: seq<(string, RpcValue)>)
    requires forall k | 0 <= k < |items| :: Scalar(items[k])
    decreases |items|
  {
    if |items| == 0 then []
    else [(DecimalString(index), ScalarValue(items[0]))] + IndexPairs(items[1..], index + 1)
  }

  /** What a flat value should read back as: an array arrives as a struct
      keyed by the decimal indices, because it is written as one. */
  function Expected(v: JsValue): RpcValue
    requires Flat(v)
  {
    match v
    case JsArray(items) => RpcStruct(ToMap(IndexPairs(items, 0)))
    case JsObject(entries) => RpcStruct(ToMap(PropertyPairs(entries)))
    case _ => ScalarValue(v)
  }

  /** The element as a response carries it: inside a `value`. The serializer
      leaves a struct unwrapped, so a `value` is put around it. */
  function AsValue(e: Node): Node {
    if e.Element? && e.tag == "value" then e else Element("value", [e])
  }

  lemma TextsOfOne(n: Node)
    ensures TextsOf([n]) == TextContent(n)
  {
    assert [n][1..] == [];
  }

  /** A written string or number reads back as itself. */
  lemma ReadScalar(number: string -> int, search: MemberSearch, v: JsValue)
    requires ReadsIntegers(number)
    requires Scalar(v)
    ensures ValueElement(v).Success?
    ensures ParseValueWith(number, search, ValueElement(v).value) == Success(ScalarValue(v))
  {
    if v.JsNumber? {
      var e := TextElement("int", IntString(v.n));
      TextsOfOne(e);
      assert FirstElement([e]) == Some(e);
    } else {
      var node := ValueElement(v).value;
      assert FirstElement(Children(node)).None?;
    }
  }

  lemma NoOtherTagInText(tag: string, s: string, other: string)
    requires tag != other
    ensures Find(Children(TextElement(tag, s)), other).None?
    ensures FindIn(TextElement(tag, s), other) == []
  {
    if s != "" {
      assert [Text(s)][1..] == [];
      assert FindAll([Text(s)], other) == FindIn(Text(s), other) + FindAll([], other);
    }
  }

  /** A written scalar holds no `member` element. */
  lemma ScalarHoldsNoMember(v: JsValue)
    requires Scalar(v)
    ensures ValueElement(v).Success?
    ensures FindIn(ValueElement(v).value, "member") == []
  {
    if v.JsNumber? {
      var e := TextElement("int", IntString(v.n));
      NoOtherTagInText("int", IntString(v.n), "member");
      assert FindAll([e], "member") == FindIn(e, "member") + FindAll([], "member");
    } else {
      NoOtherTagInText("value", v.s, "member");
    }
  }

  /** Reading one written member: its name is the text of its `name` and its
      value the `value` that follows. */
  lemma ReadMember(key: string, value: Node)
    requires value.Element? && value.tag == "value"
    ensures Find(Children(MemberElement(key, value)), "name") == Some(TextElement("name", key))
    ensures Find(Children(MemberElement(key, value)), "value") == Some(value)
  {
    var name := TextElement("name", key);
    NoOtherTagInText("name", key, "value");
    assert [name, value][1..] == [value];
    assert FindFirstIn(name, "value") == None;
    assert Find([value], "value") == Some(value);
  }

  /** The members the serializer writes for an object of scalars read back
      as its properties, in order. */
  lemma {:induction false} ReadObjectMembers(number: string -> int, search: MemberSearch, entries: seq<Property>, parent: Node)
    requires ReadsIntegers(number)
    requires forall k | 0 <= k < |entries| :: Scalar(entries[k].value)
    requires ObjectMembers(entries).Success?
    requires forall k | 0 <= k < |ObjectMembers(entries).value| :: Size(ObjectMembers(entries).value[k]) < Size(parent)
    ensures ParseMembers(number, search, ObjectMembers(entries).value, parent) == Success(PropertyPairs(entries))
    decreases |entries|
  {
    if |entries| > 0 {
      var members := ObjectMembers(entries).value;
      var v := entries[0].value;
      ReadScalar(number, search, v);
      ReadMember(entries[0].key, ValueElement(v).value);
      assert members[1..] == ObjectMembers(entries[1..]).value;
      ReadObjectMembers(number, search, entries[1..], parent);
    }
  }

  /** The members the serializer writes for an array of scalars read back as
      its elements, keyed by index. */
  lemma {:induction false} ReadArrayMembers(number: string -> int, search: MemberSearch, items: seq<JsValue>, index: nat, parent: Node)
    requires ReadsIntegers(number)
    requires forall k | 0 <= k < |items| :: Scalar(items[k])
    requires ArrayMembers(items, index).Success?
    requires forall k | 0 <= k < |ArrayMembers(items, index).value| :: Size(ArrayMembers(items, index).value[k]) < Size(parent)
    ensures ParseMembers(number, search, ArrayMembers(items, index).value, parent) == Success(IndexPairs(items, index))
    decreases |items|
  {
    if |items| > 0 {
      var members := ArrayMembers(items, index).value;
      ReadScalar(number, search, items[0]);
      ReadMember(DecimalString(index), ValueElement(items[0]).value);
      assert members[1..] == ArrayMembers(items[1..], index + 1).value;
      ReadArrayMembers(number, search, items[1..], index + 1, parent);
    }
  }

  /** A member the serializer writes for a scalar holds no further member. */
  lemma ScalarMemberHoldsNoMember(key: string, v: JsValue)
    requires Scalar(v)
    ensures ValueElement(v).Success?
    ensures FindAll(Children(MemberElement(key, ValueElement(v).value)), "member") == []
  {
    NoOtherTagInText("name", key, "member");
    ScalarHoldsNoMember(v);
    NoneInPair(TextElement("name", key), ValueElement(v).value, "member");
  }

  /** Two trees neither of which holds the tag hold it nowhere. */
  lemma NoneInPair(first: Node, second: Node, tag: string)
    requires FindIn(first, tag) == [] && FindIn(second, tag) == []
    ensures FindAll([first, second], tag) == []
  {
    assert [first, second][1..] == [second];
    assert [second][1..] == [];
    assert FindAll([second], tag) == FindIn(second, tag) + FindAll([], tag);
    assert FindAll([first, second], tag) == FindIn(first, tag) + FindAll([second], tag);
  }

  /** Members none of which holds a further member. */
  predicate LeafMembers(members: seq<Node>) {
    forall k | 0 <= k < |members| ::
      members[k].Element? && members[k].tag == "member" && FindAll(members[k].children, "member") == []
  }

  /** In a list of members holding no further members, `querySelectorAll`
      finds just the list. */
  lemma {:induction false} LeafMembersFound(members: seq<Node>)
    requires LeafMembers(members)
    ensures FindAll(members, "member") == members
    decreases |members|
  {
    if |members| > 0 {
      assert LeafMembers(members[1..]) by {
        forall k | 0 <= k < |members| - 1
          ensures members[1..][k] == members[k + 1]
        {
        }
      }
      LeafMembersFound(members[1..]);
    }
  }

  /** Both ways of finding a struct's members find the same ones when the
      struct holds only members without further members. */
  lemma StructMembersFound(members: seq<Node>, search: MemberSearch)
    requires LeafMembers(members)
    ensures MemberNodes(AsValue(Element("struct", members)), search) == members
  {
    var s := Element("struct", members);
    assert AsValue(s) == Element("value", [s]);
    match search
    case DirectChildren =>
      ElementsNamedAll(members, "member");
    case Descendants =>
      LeafMembersFound(members);
      assert FindAll([s], "member") == FindIn(s, "member") + FindAll([], "member");
  }

  /** A `value` holding a struct of leaf members reads as the object its
      members' pairs build. */
  lemma ReadStruct(number: string -> int, search: MemberSearch, members: seq<Node>)
    requires LeafMembers(members)
    ensures var node := Element("value", [Element("struct", members)]);
      && (forall k | 0 <= k < |members| :: Size(members[k]) < Size(node))
      && ParseValueWith(number, search, node) ==
           match ParseMembers(number, search, members, node)
           case Success(pairs) => Success(RpcStruct(ToMap(pairs)))
           case Failure(e) => Failure(e)
  {
    var s := Element("struct", members);
    var node := Element("value", [s]);
    StructMembersFound(members, search);
    assert AsValue(s) == node;
    assert FirstElement(Children(node)) == Some(s);
    StructOfPairs(number, search, node);
  }

  /** An object of scalars, written and put inside a `value`, reads back as
      a struct of its properties. */
  lemma ReadObjectStruct(number: string -> int, search: MemberSearch, entries: seq<Property>)
    requires ReadsIntegers(number)
    requires forall k | 0 <= k < |entries| :: Scalar(entries[k].value)
    ensures ObjectMembers(entries).Success?
    ensures var node := Element("value", [Element("struct", ObjectMembers(entries).value)]);
      ParseValueWith(number, search, node) == Success(RpcStruct(ToMap(PropertyPairs(entries))))
  {
    ObjectMembersSucceed(entries);
    forall k | 0 <= k < |entries|
      ensures Serializable(entries[k].value)
    {
    }
    var members := ObjectMembers(entries).value;
    var s := Element("struct", members);
    var node := Element("value", [s]);
    ObjectMembersShape(entries);
    forall k | 0 <= k < |entries|
      ensures FindAll(members[k].children, "member") == []
    {
      ScalarMemberHoldsNoMember(entries[k].key, entries[k].value);
    }
    ReadStruct(number, search, members);
    ReadObjectMembers(number, search, entries, node);
  }

  /** The same, stated of the value itself. */
  lemma ReadWrittenObject(number: string -> int, search: MemberSearch, entries: seq<Property>)
    requires ReadsIntegers(number)
    requires forall k | 0 <= k < |entries| :: Scalar(entries[k].value)
    ensures ValueElement(JsObject(entries)).Success?
    ensures ParseValueWith(number, search, AsValue(ValueElement(JsObject(entries)).value)) == Success(Expected(JsObject(entries)))
  {
    ReadObjectStruct(number, search, entries);
    assert AsValue(ValueElement(JsObject(entries)).value) == Element("value", [Element("struct", ObjectMembers(entries).value)]);
  }

  /** An array of scalars, written and put inside a `value`, reads back as a
      struct keyed by the decimal indices. */
  lemma ReadArrayStruct(number: string -> int, search: MemberSearch, items: seq<JsValue>)
    requires ReadsIntegers(number)
    requires forall k | 0 <= k < |items| :: Scalar(items[k])
    ensures ArrayMembers(items, 0).Success?
    ensures var node := Element("value", [Element("struct", ArrayMembers(items, 0).value)]);
      ParseValueWith(number, search, node) == Success(RpcStruct(ToMap(IndexPairs(items, 0))))
  {
    ArrayMembersSucceed(items, 0);
    var members := ArrayMembers(items, 0).value;
    var s := Element("struct", members);
    var node := Element("value", [s]);
    ArrayMembersShape(items, 0);
    forall k | 0 <= k < |items|
      ensures FindAll(members[k].children, "member") == []
    {
      assert members[k] == MemberElement(DecimalString(k), ValueElement(items[k]).value);
      ScalarMemberHoldsNoMember(DecimalString(k), items[k]);
    }
    ReadStruct(number, search, members);
    ReadArrayMembers(number, search, items, 0, node);
  }

  /** The same, stated of the value itself. */
  lemma ReadWrittenArray(number: string -> int, search: MemberSearch, items: seq<JsValue>)
    requires ReadsIntegers(number)
    requires forall k | 0 <= k < |items| :: Scalar(items[k])
    ensures ValueElement(JsArray(items)).Success?
    ensures ParseValueWith(number, search, AsValue(ValueElement(JsArray(items)).value)) == Success(Expected(JsArray(items)))
  {
    ReadArrayStruct(number, search, items);
    assert AsValue(ValueElement(JsArray(items)).value) == Element("value", [Element("struct", ArrayMembers(items, 0).value)]);
  }

  /** A flat value the client writes, put inside a `value` as a response
      carries it, is read back as that value, whichever way struct members
      are found. */
  lemma ReadWritten(number: string -> int, search: MemberSearch, v: JsValue)
    requires ReadsIntegers(number)
    requires Flat(v)
    ensures ValueElement(v).Success?
    ensures ParseValueWith(number, search, AsValue(ValueElement(v).value)) == Success(Expected(v))
  {
    if v.JsObject? {
      ReadWrittenObject(number, search, v.entries);
    } else if v.JsArray? {
      ReadWrittenArray(number, search, v.items);
    } else {
      ReadScalar(number, search, v);
    }
  }

  /** A `params` response carrying a written flat value returns that value. */
  lemma ReadReturned(number: string -> int, v: JsValue)
    requires ReadsIntegers(number)
    requires Flat(v)
    ensures ValueElement(v).Success?
    ensures ParseResponse(number, ReturnDocument(AsValue(ValueElement(v).value))) == Success(Returned(Expected(v)))
    ensures ParseResponseAsWritten(number, ReturnDocument(AsValue(ValueElement(v).value))) == Success(Returned(Expected(v)))
  {
    ReadWritten(number, DirectChildren, v);
    ReadWritten(number, Descendants, v);
    ReturnedValueFound(AsValue(ValueElement(v).value));
  }

  /** A `methodResponse` returning the given `value` element. */
  function ReturnDocument(value: Node): Node {
    Element("methodResponse", [Element("params", [Element("param", [value])])])
  }

  /** The first `value` of a returning document is the one it returns. */
  lemma ReturnedValueFound(value: Node)
    requires value.Element? && value.tag == "value"
    ensures FirstElement(Children(ReturnDocument(value))) == Some(Element("params", [Element("param", [value])]))
    ensures Find([ReturnDocument(value)], "value") == Some(value)
  {
    var param := Element("param", [value]);
    var params := Element("params", [param]);
    var root := ReturnDocument(value);
    assert FindFirstIn(value, "value") == Some(value);
    assert Find([value], "value") == Some(value);
    assert FindFirstIn(param, "value") == Some(value);
    assert Find([param], "value") == Some(value);
    assert FindFirstIn(params, "value") == Some(value);
    assert Find([params], "value") == Some(value);
    assert FindFirstIn(root, "value") == Some(value);
  }

  /** The fault response of the XML-RPC specification: a struct with the
      members `faultCode` (an `int`) and `faultString` (a `string`). */
  function FaultDocument(code: int, message: string): Node {
    var codeValue := Element("value", [TextElement("int", IntString(code))]);
    var messageValue := Element("value", [TextElement("string", message)]);
    Element("methodResponse", [Element("fault", [Element("value", [Element("struct", [
      MemberElement("faultCode", codeValue),
      MemberElement("faultString", messageValue)])])])])
  }

  /** Inside a written member, a tag other than `member` and `name` is
      looked up in the member's value. */
  lemma FindInMember(key: string, value: Node, tag: string)
    requires tag != "member" && tag != "name"
    ensures FindFirstIn(MemberElement(key, value), tag) == Find([value], tag)
  {
    var name := TextElement("name", key);
    NoOtherTagInText("name", key, tag);
    FindCons(name, [value], tag);
    assert [name, value] == [name] + [value];
  }

  /** Down through the fault response to the fault struct's members. */
  lemma FindInFault(first: Node, second: Node, tag: string)
    requires tag !in ["methodResponse", "fault", "value", "struct"]
    ensures Find([Element("methodResponse", [Element("fault", [Element("value", [Element("struct", [first, second])])])])], tag)
      == Find([first, second], tag)
  {
    var struct := Element("struct", [first, second]);
    FindBelow("struct", [first, second], tag);
    FindBelow("value", [struct], tag);
    FindBelow("fault", [Element("value", [struct])], tag);
    FindBelow("methodResponse", [Element("fault", [Element("value", [struct])])], tag);
  }

  /** The first `int` of a fault response is the fault code's. */
  lemma FaultCodeFound(code: int, message: string)
    ensures Find([FaultDocument(code, message)], "int") == Some(TextElement("int", IntString(code)))
  {
    var intNode := TextElement("int", IntString(code));
    var first := MemberElement("faultCode", Element("value", [intNode]));
    var second := MemberElement("faultString", Element("value", [TextElement("string", message)]));
    FindHere(intNode, "int");
    FindBelow("value", [intNode], "int");
    FindInMember("faultCode", Element("value", [intNode]), "int");
    FindCons(first, [second], "int");
    assert [first, second] == [first] + [second];
    FindInFault(first, second, "int");
  }

  /** The first `string` of a fault response is the fault string's. */
  lemma FaultStringFound(code: int, message: string)
    ensures Find([FaultDocument(code, message)], "string") == Some(TextElement("string", message))
  {
    var intNode := TextElement("int", IntString(code));
    var stringNode := TextElement("string", message);
    var first := MemberElement("faultCode", Element("value", [intNode]));
    var second := MemberElement("faultString", Element("value", [stringNode]));
    assert FindFirstIn(first, "string") == None by {
      NoOtherTagInText("int", IntString(code), "string");
      FindBelow("value", [intNode], "string");
      FindInMember("faultCode", Element("value", [intNode]), "string");
    }
    assert FindFirstIn(second, "string") == Some(stringNode) by {
      FindHere(stringNode, "string");
      FindBelow("value", [stringNode], "string");
      FindInMember("faultString", Element("value", [stringNode]), "string");
    }
    FindCons(first, [second], "string");
    FindCons(second, [], "string");
    assert [first, second] == [first] + [second];
    assert [second] == [second] + [];
    FindInFault(first, second, "string");
  }

  /** A fault response reads as an error whose message is the code, `": "`
      and the fault string. */
  lemma ReadFault(number: string -> int, code: int, message: string)
    requires ReadsIntegers(number)
    ensures ParseResponse(number, FaultDocument(code, message)) == Success(Fault(IntString(code) + ": " + message))
  {
    var intNode := TextElement("int", IntString(code));
    var root := FaultDocument(code, message);
    assert FirstElement(Children(root)).value.tag == "fault";
    FaultCodeFound(code, message);
    FaultStringFound(code, message);
    TextsOfOne(intNode);
  }

  /** The text of a member's first `name`, if it has one. */
  function MemberName(member: Node): Option<string> {
    match Find(Children(member), "name")
    case None => None
    case Some(name) => Some(TextContent(name))
  }

  /** Reading members pairs each with its own name, in order. */
  lemma {:induction false} ParseMembersNames(number: string -> int, search: MemberSearch, members: seq<Node>, parent: Node)
    requires forall k | 0 <= k < |members| :: Size(members[k]) < Size(parent)
    requires ParseMembers(number, search, members, parent).Success?
    ensures forall k | 0 <= k < |members| ::
      MemberName(members[k]) == Some(ParseMembers(number, search, members, parent).value[k].0)
    decreases |members|
  {
    if |members| > 0 {
      var r := ParseMembers(number, search, members, parent).value;
      var name := Find(Children(members[0]), "name").value;
      var valueNode := Find(Children(members[0]), "value").value;
      var rest := ParseMembers(number, search, members[1..], parent).value;
      assert r == [(TextContent(name), ParseValueWith(number, search, valueNode).value)] + rest;
      ParseMembersNames(number, search, members[1..], parent);
      forall k | 0 <= k < |members|
        ensures MemberName(members[k]) == Some(r[k].0)
      {
        if k > 0 {
          assert members[k] == members[1..][k - 1] && r[k] == rest[k - 1];
        }
      }
    }
  }

  /** A struct value reads as the object its members' pairs build. */
  lemma ReadStructValue(number: string -> int, search: MemberSearch, node: Node)
    requires ParseValueWith(number, search, node).Success? && ParseValueWith(number, search, node).value.RpcStruct?
    ensures ParseMembers(number, search, MemberNodes(node, search), node).Success?
    ensures ParseValueWith(number, search, node).value.members == ToMap(ParseMembers(number, search, MemberNodes(node, search), node).value)
  {
    ParseValueKind(number, search, node);
    StructOfPairs(number, search, node);
  }

  /** The keys of an object built from pairs are the pairs' names. */
  lemma ToMapKeys(pairs: seq<(string, RpcValue)>)
    ensures forall name :: name in ToMap(pairs) <==> exists k | 0 <= k < |pairs| :: pairs[k].0 == name
  {
  }

  /** With members taken from the `struct` element's own children, a struct
      has exactly the names of its own members: a name is a key of the
      object when, and only when, one of those members carries it. */
  lemma StructKeysAreOwnMembers(number: string -> int, node: Node)
    requires ParseValue(number, node).Success? && ParseValue(number, node).value.RpcStruct?
    ensures forall name :: name in ParseValue(number, node).value.members <==>
      exists k | 0 <= k < |MemberNodes(node, DirectChildren)| :: MemberName(MemberNodes(node, DirectChildren)[k]) == Some(name)
  {
    ReadStructValue(number, DirectChildren, node);
    var members := MemberNodes(node, DirectChildren);
    var pairs := ParseMembers(number, DirectChildren, members, node).value;
    ParseMembersNames(number, DirectChildren, members, node);
    ToMapKeys(pairs);
  }

  /** The member `b: x`. */
  function LeafMember(b: string, x: string): Node {
    MemberElement(b, TextElement("value", x))
  }

  /** The value `{b: x}`. */
  function InnerDocument(b: string, x: string): Node {
    Element("value", [Element("struct", [LeafMember(b, x)])])
  }

  /** A struct nested in the member `a` of an outer struct, the way a server
      writes it: `{a: {b: x}}`. */
  function NestedDocument(a: string, b: string, x: string): Node {
    Element("value", [Element("struct", [MemberElement(a, InnerDocument(b, x))])])
  }

  /** The inner struct's one member is `b`, whichever way members are found. */
  lemma InnerMemberNodes(search: MemberSearch, b: string, x: string)
    ensures MemberNodes(InnerDocument(b, x), search) == [LeafMember(b, x)]
  {
    var leaf := LeafMember(b, x);
    ScalarMemberHoldsNoMember(b, JsString(x));
    StructMembersFound([leaf], search);
    assert AsValue(Element("struct", [leaf])) == InnerDocument(b, x);
  }

  /** The inner struct reads as `{b: x}` whichever way members are found. */
  lemma ReadInner(number: string -> int, search: MemberSearch, b: string, x: string)
    ensures ParseValueWith(number, search, InnerDocument(b, x)) == Success(RpcStruct(map[b := RpcString(x)]))
  {
    var inner := InnerDocument(b, x);
    InnerMemberNodes(search, b, x);
    ReadLeafMember(number, search, b, x, inner);
    assert FirstElement(Children(inner)) == Some(Element("struct", [LeafMember(b, x)]));
    StructOfPairs(number, search, inner);
    assert ToMap([(b, RpcString(x))]) == map[b := RpcString(x)];
  }

  /** With the outer struct's own members, `{a: {b: x}}` reads back as
      written. */
  lemma ReadNestedOwnMembers(number: string -> int, a: string, b: string, x: string)
    ensures MemberNodes(NestedDocument(a, b, x), DirectChildren) == [MemberElement(a, InnerDocument(b, x))]
    ensures ParseValue(number, NestedDocument(a, b, x))
      == Success(RpcStruct(map[a := RpcStruct(map[b := RpcString(x)])]))
  {
    var inner := InnerDocument(b, x);
    var memberA := MemberElement(a, inner);
    var s := Element("struct", [memberA]);
    var outer := NestedDocument(a, b, x);
    var innerValue := RpcStruct(map[b := RpcString(x)]);
    assert FirstElement(Children(outer)) == Some(s);
    ElementsNamedAll([memberA], "member");
    assert MemberNodes(outer, DirectChildren) == [memberA];
    StructOfPairs(number, DirectChildren, outer);
    ReadMember(a, inner);
    ReadInner(number, DirectChildren, b, x);
    assert [memberA][1..] == [];
    assert ParseMembers(number, DirectChildren, [], outer) == Success([]);
    ParseMembersStep(number, DirectChildren, [memberA], outer, TextElement("name", a), inner, innerValue, []);
    assert [(a, innerValue)] + [] == [(a, innerValue)];
    assert ToMap([(a, innerValue)]) == map[a := innerValue];
  }

  /** The only member below the inner value is `b`. */
  lemma InnerMembersBelow(b: string, x: string)
    ensures FindAll([InnerDocument(b, x)], "member") == [LeafMember(b, x)]
  {
    var leaf := LeafMember(b, x);
    var inner := InnerDocument(b, x);
    ScalarMemberHoldsNoMember(b, JsString(x));
    StructMembersFound([leaf], Descendants);
    assert AsValue(Element("struct", [leaf])) == inner;
    assert FindIn(inner, "member") == [leaf];
    assert FindAll([inner], "member") == FindIn(inner, "member") + FindAll([], "member");
  }

  /** Every member below the outer value: `a`, then the `b` inside it. */
  lemma NestedMembersBelow(a: string, b: string, x: string)
    ensures MemberNodes(NestedDocument(a, b, x), Descendants) == [MemberElement(a, InnerDocument(b, x)), LeafMember(b, x)]
  {
    var leaf := LeafMember(b, x);
    var inner := InnerDocument(b, x);
    var name := TextElement("name", a);
    var memberA := MemberElement(a, inner);
    var s := Element("struct", [memberA]);
    InnerMembersBelow(b, x);
    NoOtherTagInText("name", a, "member");
    assert [name, inner][1..] == [inner];
    assert FindAll([name, inner], "member") == FindIn(name, "member") + FindAll([inner], "member");
    assert FindAll(Children(memberA), "member") == [leaf];
    assert FindIn(memberA, "member") == [memberA, leaf];
    assert FindAll([memberA], "member") == FindIn(memberA, "member") + FindAll([], "member");
    assert FindIn(s, "member") == [memberA, leaf];
    assert FindAll([s], "member") == FindIn(s, "member") + FindAll([], "member");
  }

  /** The member `b: x` alone reads as the pair `(b, x)`. */
  lemma ReadLeafMember(number: string -> int, search: MemberSearch, b: string, x: string, parent: Node)
    requires Size(LeafMember(b, x)) < Size(parent)
    ensures ParseMembers(number, search, [LeafMember(b, x)], parent) == Success([(b, RpcString(x))])
  {
    var xs := TextElement("value", x);
    var leaf := LeafMember(b, x);
    ReadMember(b, xs);
    assert FirstElement(Children(xs)).None?;
    assert ParseValueWith(number, search, xs) == Success(RpcString(x));
    assert [leaf][1..] == [];
    assert ParseMembers(number, search, [], parent) == Success([]);
    ParseMembersStep(number, search, [leaf], parent, TextElement("name", b), xs, RpcString(x), []);
    assert [(b, RpcString(x))] + [] == [(b, RpcString(x))];
  }

  /** The members `a: {b: x}` and `b: x`, read one after the other. */
  lemma ReadBothMembers(number: string -> int, a: string, b: string, x: string)
    ensures var outer := NestedDocument(a, b, x);
      var members := [MemberElement(a, InnerDocument(b, x)), LeafMember(b, x)];
      && (forall k | 0 <= k < |members| :: Size(members[k]) < Size(outer))
      && ParseMembers(number, Descendants, members, outer)
         == Success([(a, RpcStruct(map[b := RpcString(x)])), (b, RpcString(x))])
  {
    var leaf := LeafMember(b, x);
    var inner := InnerDocument(b, x);
    var memberA := MemberElement(a, inner);
    var outer := NestedDocument(a, b, x);
    var innerValue := RpcStruct(map[b := RpcString(x)]);
    NestedMembersBelow(a, b, x);
    ReadMember(a, inner);
    ReadInner(number, Descendants, b, x);
    assert MemberNodes(outer, Descendants)[1] == leaf;
    ReadLeafMember(number, Descendants, b, x, outer);
    assert [memberA, leaf][1..] == [leaf];
    ParseMembersStep(number, Descendants, [memberA, leaf], outer, TextElement("name", a), inner, innerValue, [(b, RpcString(x))]);
    assert [(a, innerValue)] + [(b, RpcString(x))] == [(a, innerValue), (b, RpcString(x))];
  }

  /** Read as line 78 reads it, `{a: {b: x}}` also gets the key `b` of the
      nested struct, assigned after `a`. */
  lemma ReadNestedAllMembers(number: string -> int, a: string, b: string, x: string)
    ensures ParseValueAsWritten(number, NestedDocument(a, b, x))
      == Success(RpcStruct(map[a := RpcStruct(map[b := RpcString(x)])][b := RpcString(x)]))
  {
    var inner := InnerDocument(b, x);
    var memberA := MemberElement(a, inner);
    var outer := NestedDocument(a, b, x);
    var innerValue := RpcStruct(map[b := RpcString(x)]);
    var pairs := [(a, innerValue), (b, RpcString(x))];
    assert FirstElement(Children(outer)) == Some(Element("struct", [memberA]));
    NestedMembersBelow(a, b, x);
    ReadBothMembers(number, a, b, x);
    StructOfPairs(number, Descendants, outer);
    ToMapTwo((a, innerValue), (b, RpcString(x)));
  }

  /** Two pairs make an object assigned in their order. */
  lemma ToMapTwo(p: (string, RpcValue), q: (string, RpcValue))
    ensures ToMap([p, q]) == map[p.0 := p.1][q.0 := q.1]
  {
    assert [p, q][..1] == [p];
    assert [p][..0] == [];
  }

  /** Read as line 78 reads it, `{a: {b: x}}` gains a key `b` that no member
      of the outer struct carries; with members taken from the `struct`
      element's own children it reads back as written. */
  lemma NestedMembersLeak(number: string -> int, a: string, b: string, x: string)
    requires a != b
    ensures MemberNodes(NestedDocument(a, b, x), DirectChildren) == [MemberElement(a, InnerDocument(b, x))]
    ensures MemberName(MemberElement(a, InnerDocument(b, x))) == Some(a)
    ensures ParseValueAsWritten(number, NestedDocument(a, b, x)).Success?
    ensures ParseValueAsWritten(number, NestedDocument(a, b, x)).value.RpcStruct?
    ensures b in ParseValueAsWritten(number, NestedDocument(a, b, x)).value.members
    ensures ParseValue(number, NestedDocument(a, b, x))
      == Success(RpcStruct(map[a := RpcStruct(map[b := RpcString(x)])]))
  {
    ReadNestedOwnMembers(number, a, b, x);
    ReadNestedAllMembers(number, a, b, x);
    ReadMember(a, InnerDocument(b, x));
  }

  /** The nested-struct leak reaches the response: as written, a response
      returning `{a: {b: x}}` gives an outer object that also carries `b`,
      while reading own members returns the value as written. */
  lemma NestedResponseLeaks(number: string -> int, a: string, b: string, x: string)
    requires a != b
    ensures ParseResponseAsWritten(number, ReturnDocument(NestedDocument(a, b, x)))
      == Success(Returned(RpcStruct(map[a := RpcStruct(map[b := RpcString(x)])][b := RpcString(x)])))
    ensures ParseResponse(number, ReturnDocument(NestedDocument(a, b, x)))
      == Success(Returned(RpcStruct(map[a := RpcStruct(map[b := RpcString(x)])])))
  {
    ReturnedValueFound(NestedDocument(a, b, x));
    ReadNestedAllMembers(number, a, b, x);
    ReadNestedOwnMembers(number, a, b, x);
  }
}
