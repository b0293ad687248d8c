/** xmlRpcSerialize.js: a method name and a list of JavaScript arguments
    turned into an XML-RPC `methodCall` element tree. */
module XmlRpcSerialize {
  import opened Wrappers
  import opened Text
  import opened XmlDom

  /** The JavaScript values a caller may pass as arguments. An object is its
      own enumerable properties in `Object.keys` order. Numbers are integers
      here. */
  datatype JsValue =
    | JsString(s: string)
    | JsNumber(n: int)
    | JsBoolean(b: bool)
    | JsUndefined
    | JsNull
    | JsArray(items: seq<JsValue>)
    | JsObject(entries: seq<Property>)

  /** One own property of an object. */
  datatype Property = Property(key: string, value: JsValue)

  datatype SerializeError =
    | NotConvertible(value: JsValue)  // the `throw` of lines 55-59
    | NotAnObject                     // `Object.keys(null)`: `null` is of type 'object'

  /** Values the serializer accepts: strings, numbers, and arrays and objects
      built from them; booleans, `undefined` and `null` are refused wherever
      they occur. */
  predicate Serializable(v: JsValue) {
    match v
    case JsString(_) => true
    case JsNumber(_) => true
    case JsArray(items) => forall k | 0 <= k < |items| :: Serializable(items[k])
    case JsObject(entries) => forall k | 0 <= k < |entries| :: Serializable(entries[k].value)
    case _ => false
  }

  /** `{ member: [{ name: property }, configFromValue(value)] }` made into an
      element. */
  function MemberElement(name: string, value: Node): Node {
    Element("member", [TextElement("name", name), value])
  }

  /** `configFromValue` followed by `createElement` (lines 35-75, 77-95): a
      string is a `value` holding its text, a number a `value` holding an
      `int`, and an object or array a `struct` with one `member` per key,
      not wrapped in a `value`. */
  function ValueElement(v: JsValue): (r: Result<Node, SerializeError>)
    ensures r.Success? ==> r.value.Element?
    ensures r.Success? && (v.JsString? || v.JsNumber?) ==> r.value.tag == "value"
    ensures r.Success? && (v.JsArray? || v.JsObject?) ==> r.value.tag == "struct"
    ensures v.JsNull? ==> r == Failure(NotAnObject)
    ensures v.JsBoolean? || v.JsUndefined? ==> r == Failure(NotConvertible(v))
    // A string is its text with no type element, a number an `int` element
    ensures v.JsString? ==>
      && r == Success(TextElement("value", v.s))
      && FirstElement(Children(r.value)).None? && TextContent(r.value) == v.s
    ensures v.JsNumber? ==>
      && r == Success(Element("value", [TextElement("int", IntString(v.n))]))
      && TextContent(r.value.children[0]) == IntString(v.n)
    decreases v, 1
  {
    match v
    case JsString(s) => Success(TextElement("value", s))
    case JsNumber(n) => Success(Element("value", [TextElement("int", IntString(n))]))
    case JsObject(entries) =>
      var members :- ObjectMembers(entries);
      Success(Element("struct", members))
    case JsArray(items) =>
      var members :- ArrayMembers(items, 0);
      Success(Element("struct", members))
    case JsNull => Failure(NotAnObject)
    case _ => Failure(NotConvertible(v))
  }

  /** The members of an object, in key order; the first property that cannot
      be converted decides the error. */
  function ObjectMembers(entries: seq<Property>): (r: Result<seq<Node>, SerializeError>)
    ensures r.Success? ==> |r.value| == |entries|
    decreases entries, 0
  {
    if |entries| == 0 then Success([])
    else
      var value :- ValueElement(entries[0].value);
      var rest :- ObjectMembers(entries[1..]);
      Success([MemberElement(entries[0].key, value)] + rest)
  }

  /** The members of an array from index `index` on: `Object.keys` names an
      array's elements by their decimal indices. */
  function ArrayMembers(items: seq<JsValue>, index: nat): (r: Result<seq<Node>, SerializeError>)
    ensures r.Success? ==> |r.value| == |items|
    decreases items, 0
  {
    if |items| == 0 then Success([])
    else
      var value :- ValueElement(items[0]);
      var rest :- ArrayMembers(items[1..], index + 1);
      Success([MemberElement(DecimalString(index), value)] + rest)
  }

  /** A value is converted exactly when it is serializable. */
  lemma {:induction false} ValueElementSucceeds(v: JsValue)
    ensures ValueElement(v).Success? <==> Serializable(v)
    decreases v, 1
  {
    match v
    case JsObject(entries) => ObjectMembersSucceed(entries);
    case JsArray(items) => ArrayMembersSucceed(items, 0);
    case _ =>
  }

  lemma {:induction false} ObjectMembersSucceed(entries: seq<Property>)
    ensures ObjectMembers(entries).Success? <==> forall k | 0 <= k < |entries| :: Serializable(entries[k].value)
    decreases entries, 0
  {
    if |entries| > 0 {
      ValueElementSucceeds(entries[0].value);
      ObjectMembersSucceed(entries[1..]);
      assert forall k | 1 <= k < |entries| :: entries[k] == entries[1..][k - 1];
    }
  }

  lemma {:induction false} ArrayMembersSucceed(items: seq<JsValue>, index: nat)
    ensures ArrayMembers(items, index).Success? <==> forall k | 0 <= k < |items| :: Serializable(items[k])
    decreases items, 0
  {
    if |items| > 0 {
      ValueElementSucceeds(items[0]);
      ArrayMembersSucceed(items[1..], index + 1);
      assert forall k | 1 <= k < |items| :: items[k] == items[1..][k - 1];
    }
  }

  /** The members of a converted object: one per property, in key order, each
      a `name` holding the key followed by the converted value. */
  lemma {:induction false} ObjectMembersShape(entries: seq<Property>)
    requires ObjectMembers(entries).Success?
    ensures forall k | 0 <= k < |entries| ::
      && ValueElement(entries[k].value).Success?
      && ObjectMembers(entries).value[k] == MemberElement(entries[k].key, ValueElement(entries[k].value).value)
    decreases |entries|
  {
    if |entries| > 0 {
      var r := ObjectMembers(entries).value;
      var rest := ObjectMembers(entries[1..]).value;
      assert r == [MemberElement(entries[0].key, ValueElement(entries[0].value).value)] + rest;
      ObjectMembersShape(entries[1..]);
      forall k | 1 <= k < |entries|
        ensures ValueElement(entries[k].value).Success? && r[k] == MemberElement(entries[k].key, ValueElement(entries[k].value).value)
      {
        assert entries[k] == entries[1..][k - 1] && r[k] == rest[k - 1];
      }
    }
  }

  /** The members of a converted array: one per element, in order, named by
      the element's index. */
  lemma {:induction false} ArrayMembersShape(items: seq<JsValue>, index: nat)
    requires ArrayMembers(items, index).Success?
    ensures forall k | 0 <= k < |items| ::
      && ValueElement(items[k]).Success?
      && ArrayMembers(items, index).value[k] == MemberElement(DecimalString(index + k), ValueElement(items[k]).value)
    decreases |items|
  {
    if |items| > 0 {
      var r := ArrayMembers(items, index).value;
      var rest := ArrayMembers(items[1..], index + 1).value;
      assert r == [MemberElement(DecimalString(index), ValueElement(items[0]).value)] + rest;
      ArrayMembersShape(items[1..], index + 1);
      forall k | 0 <= k < |items|
        ensures ValueElement(items[k]).Success? && r[k] == MemberElement(DecimalString(index + k), ValueElement(items[k]).value)
      {
        if k == 0 {
          assert index + k == index;
        } else {
          assert items[k] == items[1..][k - 1] && r[k] == rest[k - 1];
          assert index + 1 + (k - 1) == index + k;
        }
      }
    }
  }

  /** The `params` element: one `param` per argument, in order (lines 27-33). */
  function ParamsElement(args: seq<JsValue>): (r: Result<Node, SerializeError>)
    ensures r.Success? ==> r.value.Element? && r.value.tag == "params" && |r.value.children| == |args|
  {
    var params :- Params(args);
    Success(Element("params", params))
  }

  function Params(args: seq<JsValue>): (r: Result<seq<Node>, SerializeError>)
    ensures r.Success? ==> |r.value| == |args|
    decreases |args|
  {
    if |args| == 0 then Success([])
    else
      var value :- ValueElement(args[0]);
      var rest :- Params(args[1..]);
      Success([Element("param", [value])] + rest)
  }

  /** `domFromMethodCall` (lines 9-21): a `methodCall` element holding the
      method name and, when there are arguments, their `params`. */
  function MethodCall(name: string, args: seq<JsValue>): Result<Node, SerializeError> {
    if |args| > 0 then
      var params :- ParamsElement(args);
      Success(Element("methodCall", [TextElement("methodName", name), params]))
    else Success(Element("methodCall", [TextElement("methodName", name)]))
  }

  lemma {:induction false} ParamsShape(args: seq<JsValue>)
    ensures Params(args).Success? <==> forall k | 0 <= k < |args| :: Serializable(args[k])
    ensures Params(args).Success? ==> forall k | 0 <= k < |args| ::
      && ValueElement(args[k]).Success?
      && Params(args).value[k] == Element("param", [ValueElement(args[k]).value])
    decreases |args|
  {
    if |args| > 0 {
      ValueElementSucceeds(args[0]);
      ParamsShape(args[1..]);
      assert forall k | 1 <= k < |args| :: args[k] == args[1..][k - 1];
    }
  }

  /** The string and integer calls of the serializer's tests:
      `<param><value>aValue</value></param>` and
      `<param><value><int>1</int></value></param>`. */
  lemma ScalarCalls()
    ensures MethodCall("aMethod", [JsString("aValue")]) == Success(Element("methodCall", [
      TextElement("methodName", "aMethod"),
      Element("params", [Element("param", [TextElement("value", "aValue")])])]))
    ensures MethodCall("aMethod", [JsNumber(1)]) == Success(Element("methodCall", [
      TextElement("methodName", "aMethod"),
      Element("params", [Element("param", [Element("value", [TextElement("int", "1")])])])]))
  {
    var a, b := [JsString("aValue")], [JsNumber(1)];
    assert a[1..] == [] && b[1..] == [];
    assert Params(a[1..]) == Success([]) && Params(b[1..]) == Success([]);
    assert ValueElement(a[0]) == Success(TextElement("value", "aValue"));
    assert ValueElement(b[0]) == Success(Element("value", [TextElement("int", IntString(1))]));
    var pa, pb := Element("param", [TextElement("value", "aValue")]), Element("param", [Element("value", [TextElement("int", "1")])]);
    assert [pa] + [] == [pa] && [pb] + [] == [pb];
    assert Params(a) == Success([pa]);
    assert IntString(1) == "1";
    assert Params(b) == Success([pb]);
  }

  /** A call is built exactly when every argument is serializable. Its root
      is `methodCall`, whose first child is the `methodName`; a `params`
      element follows only when there are arguments, with one `param` per
      argument, in order, holding that argument's element. */
  lemma MethodCallShape(name: string, args: seq<JsValue>)
    ensures MethodCall(name, args).Success? <==> forall k | 0 <= k < |args| :: Serializable(args[k])
    ensures MethodCall(name, args).Success? ==>
      var root := MethodCall(name, args).value;
      && root.Element? && root.tag == "methodCall"
      && |root.children| == (if |args| == 0 then 1 else 2)
      && root.children[0].Element? && root.children[0].tag == "methodName"
      && TextContent(root.children[0]) == name
      && (|args| > 0 ==>
            && root.children[1].Element? && root.children[1].tag == "params"
            && |root.children[1].children| == |args|
            && forall k | 0 <= k < |args| ::
                 && ValueElement(args[k]).Success?
                 && root.children[1].children[k] == Element("param", [ValueElement(args[k]).value]))
  {
    ParamsShape(args);
  }
}
