/** xmlRpcParse.js: an XML-RPC `methodResponse` element tree turned into the
    returned value, a fault, or nothing. */
module XmlRpcParse {
  import opened Wrappers
  import opened Text
  import opened XmlDom

  /** What a response value becomes: a struct is an object, its members
      assigned one after another, so a repeated name keeps the last value. */
  datatype RpcValue =
    | RpcString(s: string)
    | RpcInt(n: int)
    | RpcBool(b: bool)
    | RpcArray(items: seq<RpcValue>)
    | RpcStruct(members: map<string, RpcValue>)

  /** `undefined` for an empty response, the value of a `params` response,
      or the `Error` a fault response becomes, as its message. */
  datatype Response = NoValue | Returned(value: RpcValue) | Fault(message: string)

  datatype ParseError =
    | UnsupportedType(typeName: string)  // the `throw` of lines 49-54
    | MissingElement(tag: string)        // a `querySelector` that found nothing

  /** Which `member` elements a struct is read from: every `member` below the
      value, as `querySelectorAll` at line 78 finds them, or only the
      children of the `struct` element. */
  datatype MemberSearch = Descendants | DirectChildren

  /** The type of a value: the tag of its first element child, `string` when
      there is none (lines 33-39). */
  function TypeName(node: Node): string {
    match FirstElement(Children(node))
    case None => "string"
    case Some(t) => t.tag
  }

  /** The types this client reads. */
  datatype ValueType = ArrayType | BooleanType | IntType | StringType | StructType

  /** The converter table of lines 41-47: the type a tag names, if any. */
  function TypeOf(typeName: string): Option<ValueType> {
    if typeName == "array" then Some(ArrayType)
    else if typeName == "boolean" then Some(BooleanType)
    else if typeName == "int" then Some(IntType)
    else if typeName == "string" then Some(StringType)
    else if typeName == "struct" then Some(StructType)
    else None
  }

  /** The type each kind of value is read from. */
  function KindOf(v: RpcValue): ValueType {
    match v
    case RpcString(_) => StringType
    case RpcInt(_) => IntType
    case RpcBool(_) => BooleanType
    case RpcArray(_) => ArrayType
    case RpcStruct(_) => StructType
  }

  /** An object built by assigning the pairs in order: the last pair for a
      name decides its value. */
  function ToMap(pairs: seq<(string, RpcValue)>): (r: map<string, RpcValue>)
    ensures forall k | 0 <= k < |pairs| :: pairs[k].0 in r
    ensures forall name | name in r :: exists k | 0 <= k < |pairs| :: pairs[k].0 == name && pairs[k].1 == r[name]
    decreases |pairs|
  {
    if |pairs| == 0 then map[]
    else
      var init := pairs[..|pairs| - 1];
      var last := pairs[|pairs| - 1];
      var r := ToMap(init)[last.0 := last.1];
      assert forall k | 0 <= k < |init| :: init[k] == pairs[k];
      r
  }

  /** Pair `k` is the last pair with its name. */
  predicate LastOf(pairs: seq<(string, RpcValue)>, k: int) {
    0 <= k < |pairs| && forall m | k < m < |pairs| :: pairs[m].0 != pairs[k].0
  }

  /** Assigning the pairs in order leaves each name with the value of the last
      pair that carries it. */
  lemma {:induction false} ToMapLastWins(pairs: seq<(string, RpcValue)>, k: int)
    requires LastOf(pairs, k)
    ensures pairs[k].0 in ToMap(pairs) && ToMap(pairs)[pairs[k].0] == pairs[k].1
    decreases |pairs|
  {
    var init := pairs[..|pairs| - 1];
    if k < |pairs| - 1 {
      assert init[k] == pairs[k];
      assert LastOf(init, k) by {
        forall m | k < m < |init|
          ensures init[m].0 != init[k].0
        {
          assert init[m] == pairs[m];
        }
      }
      ToMapLastWins(init, k);
    }
  }

  lemma SizeOfChild(ns: seq<Node>, n: Node)
    requires n in ns
    ensures Size(n) <= SizeOf(ns)
  {
    var k :| 0 <= k < |ns| && ns[k] == n;
  }

  /** The `member` elements a struct value is read from; each lies below the
      value. */
  function MemberNodes(node: Node, search: MemberSearch): (r: seq<Node>)
    ensures forall k | 0 <= k < |r| :: r[k].Element? && r[k].tag == "member" && Size(r[k]) < Size(node)
  {
    match search
    case Descendants => FindAll(Children(node), "member")
    case DirectChildren =>
      match FirstElement(Children(node))
      case None => []
      case Some(s) =>
        SizeOfChild(Children(node), s);
        ElementsNamed(s.children, "member")
  }

  /** The element children of the first `data` below an array value
      (line 61); each lies below the value. */
  function ArrayItems(node: Node): (r: Option<seq<Node>>)
    ensures r.Some? ==> forall k | 0 <= k < |r.value| :: r.value[k].Element? && Size(r.value[k]) < Size(node)
  {
    match Find(Children(node), "data")
    case None => None
    case Some(data) => Some(ElementsOf(data.children))
  }

  /** `valueFromValueNode` (lines 32-58) with the converters of lines 60-85:
      the value node is read according to its type. */
  function ParseValueWith(number: string -> int, search: MemberSearch, node: Node): (r: Result<RpcValue, ParseError>)
    decreases Size(node), 2, 0
  {
    match TypeOf(TypeName(node))
    case None => Failure(UnsupportedType(TypeName(node)))
    case Some(ArrayType) =>
      (match ArrayItems(node)
       case None => Failure(MissingElement("data"))
       case Some(items) =>
         var values :- ParseItems(number, search, items, node);
         Success(RpcArray(values)))
    case Some(BooleanType) => Success(RpcBool(TextContent(node) != "0"))
    case Some(IntType) => Success(RpcInt(number(TextContent(node))))
    case Some(StringType) => Success(RpcString(TextContent(node)))
    case Some(StructType) => StructWith(number, search, node)
  }

  /** The struct converter (lines 76-85): the object its members build. */
  function StructWith(number: string -> int, search: MemberSearch, node: Node): (r: Result<RpcValue, ParseError>)
    decreases Size(node), 1, |MemberNodes(node, search)| + 1
  {
    var pairs :- ParseMembers(number, search, MemberNodes(node, search), node);
    Success(RpcStruct(ToMap(pairs)))
  }

  /** An unsupported type tag is an error, and a value that is read has the
      kind its type tag names. */
  lemma ParseValueKind(number: string -> int, search: MemberSearch, node: Node)
    ensures TypeOf(TypeName(node)).None? ==> ParseValueWith(number, search, node) == Failure(UnsupportedType(TypeName(node)))
    ensures ParseValueWith(number, search, node).Success? ==> TypeOf(TypeName(node)) == Some(KindOf(ParseValueWith(number, search, node).value))
  {
  }

  /** The element children of an array's `data`, each read as a value. */
  function ParseItems(number: string -> int, search: MemberSearch, items: seq<Node>, parent: Node): (r: Result<seq<RpcValue>, ParseError>)
    requires forall k | 0 <= k < |items| :: Size(items[k]) < Size(parent)
    ensures r.Success? ==> |r.value| == |items|
    decreases Size(parent), 1, |items|
  {
    if |items| == 0 then Success([])
    else
      var v :- ParseValueWith(number, search, items[0]);
      var rest :- ParseItems(number, search, items[1..], parent);
      Success([v] + rest)
  }

  /** Each member's name (the text of its first `name`) paired with its value
      (the first `value` below it), in document order. */
  function ParseMembers(number: string -> int, search: MemberSearch, members: seq<Node>, parent: Node): (r: Result<seq<(string, RpcValue)>, ParseError>)
    requires forall k | 0 <= k < |members| :: Size(members[k]) < Size(parent)
    ensures r.Success? ==> |r.value| == |members|
    decreases Size(parent), 1, |members|
  {
    if |members| == 0 then Success([])
    else
      var member := members[0];
      match Find(Children(member), "name")
      case None => Failure(MissingElement("name"))
      case Some(name) =>
        match Find(Children(member), "value")
        case None => Failure(MissingElement("value"))
        case Some(valueNode) =>
          assert Size(valueNode) < Size(member);
          var v :- ParseValueWith(number, search, valueNode);
          var rest :- ParseMembers(number, search, members[1..], parent);
          Success([(TextContent(name), v)] + rest)
  }

  /** Reading a member list one member at a time. */
  lemma ParseMembersStep(number: string -> int, search: MemberSearch, members: seq<Node>, parent: Node,
                         name: Node, valueNode: Node, v: RpcValue, rest: seq<(string, RpcValue)>)
    requires forall k | 0 <= k < |members| :: Size(members[k]) < Size(parent)
    requires |members| > 0
    requires Find(Children(members[0]), "name") == Some(name)
    requires Find(Children(members[0]), "value") == Some(valueNode)
    requires ParseValueWith(number, search, valueNode) == Success(v)
    requires ParseMembers(number, search, members[1..], parent) == Success(rest)
    ensures ParseMembers(number, search, members, parent) == Success([(TextContent(name), v)] + rest)
  {
  }

  /** One member read on its own: the text of its first `name` paired with
      its first `value` read as a value (lines 80-82). */
  function MemberPair(number: string -> int, search: MemberSearch, member: Node): Result<(string, RpcValue), ParseError> {
    match Find(Children(member), "name")
    case None => Failure(MissingElement("name"))
    case Some(name) =>
      match Find(Children(member), "value")
      case None => Failure(MissingElement("value"))
      case Some(valueNode) =>
        var v :- ParseValueWith(number, search, valueNode);
        Success((TextContent(name), v))
  }

  /** Each item read on its own. */
  function ItemResults(number: string -> int, search: MemberSearch, items: seq<Node>): (r: seq<Result<RpcValue, ParseError>>)
    ensures |r| == |items| && forall k | 0 <= k < |items| :: r[k] == ParseValueWith(number, search, items[k])
  {
    seq(|items|, k requires 0 <= k < |items| => ParseValueWith(number, search, items[k]))
  }

  lemma {:induction false} ParseItemsAllOf(number: string -> int, search: MemberSearch, items: seq<Node>, parent: Node)
    requires forall k | 0 <= k < |items| :: Size(items[k]) < Size(parent)
    ensures ParseItems(number, search, items, parent) == AllOf(ItemResults(number, search, items))
    decreases |items|
  {
    if |items| > 0 {
      ParseItemsAllOf(number, search, items[1..], parent);
      assert ItemResults(number, search, items)[1..] == ItemResults(number, search, items[1..]);
    }
  }

  /** An array's items read exactly when each item does, item `k` becoming
      value `k`; otherwise the first item that fails decides the error. */
  lemma ParseItemsSpec(number: string -> int, search: MemberSearch, items: seq<Node>, parent: Node)
    requires forall k | 0 <= k < |items| :: Size(items[k]) < Size(parent)
    ensures ParseItems(number, search, items, parent).Success? <==>
      forall k | 0 <= k < |items| :: ParseValueWith(number, search, items[k]).Success?
    ensures ParseItems(number, search, items, parent).Success? ==>
      forall k | 0 <= k < |items| :: ParseValueWith(number, search, items[k]) == Success(ParseItems(number, search, items, parent).value[k])
    ensures ParseItems(number, search, items, parent).Failure? ==> exists k | 0 <= k < |items| ::
      && ParseValueWith(number, search, items[k]) == Failure(ParseItems(number, search, items, parent).error)
      && forall m | 0 <= m < k :: ParseValueWith(number, search, items[m]).Success?
  {
    ParseItemsAllOf(number, search, items, parent);
    AllOfSpec(ItemResults(number, search, items));
  }

  /** The first step of a member list is the first member read on its own. */
  lemma ParseMembersHead(number: string -> int, search: MemberSearch, members: seq<Node>, parent: Node)
    requires forall k | 0 <= k < |members| :: Size(members[k]) < Size(parent)
    requires |members| > 0
    ensures MemberPair(number, search, members[0]).Failure? ==>
      ParseMembers(number, search, members, parent) == Failure(MemberPair(number, search, members[0]).error)
    ensures MemberPair(number, search, members[0]).Success? ==>
      ParseMembers(number, search, members, parent) ==
        match ParseMembers(number, search, members[1..], parent)
        case Success(rest) => Success([MemberPair(number, search, members[0]).value] + rest)
        case Failure(e) => Failure(e)
  {
  }

  /** Each member read on its own. */
  function MemberResults(number: string -> int, search: MemberSearch, members: seq<Node>): (r: seq<Result<(string, RpcValue), ParseError>>)
    ensures |r| == |members| && forall k | 0 <= k < |members| :: r[k] == MemberPair(number, search, members[k])
  {
    seq(|members|, k requires 0 <= k < |members| => MemberPair(number, search, members[k]))
  }

  lemma {:induction false} ParseMembersAllOf(number: string -> int, search: MemberSearch, members: seq<Node>, parent: Node)
    requires forall k | 0 <= k < |members| :: Size(members[k]) < Size(parent)
    ensures ParseMembers(number, search, members, parent) == AllOf(MemberResults(number, search, members))
    decreases |members|
  {
    if |members| > 0 {
      ParseMembersHead(number, search, members, parent);
      ParseMembersAllOf(number, search, members[1..], parent);
      assert MemberResults(number, search, members)[1..] == MemberResults(number, search, members[1..]);
    }
  }

  /** A member list reads exactly when each member does, pair `k` being
      member `k`'s name text and value; otherwise the first member that fails
      decides the error. */
  lemma ParseMembersSpec(number: string -> int, search: MemberSearch, members: seq<Node>, parent: Node)
    requires forall k | 0 <= k < |members| :: Size(members[k]) < Size(parent)
    ensures ParseMembers(number, search, members, parent).Success? <==>
      forall k | 0 <= k < |members| :: MemberPair(number, search, members[k]).Success?
    ensures ParseMembers(number, search, members, parent).Success? ==>
      forall k | 0 <= k < |members| :: MemberPair(number, search, members[k]) == Success(ParseMembers(number, search, members, parent).value[k])
    ensures ParseMembers(number, search, members, parent).Failure? ==> exists k | 0 <= k < |members| ::
      && MemberPair(number, search, members[k]) == Failure(ParseMembers(number, search, members, parent).error)
      && forall m | 0 <= m < k :: MemberPair(number, search, members[m]).Success?
  {
    ParseMembersAllOf(number, search, members, parent);
    AllOfSpec(MemberResults(number, search, members));
  }

  /** Member `k` of `members` reads, and no later member reads to the same
      name. */
  predicate LastMember(number: string -> int, search: MemberSearch, members: seq<Node>, k: int) {
    && 0 <= k < |members|
    && MemberPair(number, search, members[k]).Success?
    && forall m | k < m < |members| && MemberPair(number, search, members[m]).Success? ::
         MemberPair(number, search, members[m]).value.0 != MemberPair(number, search, members[k]).value.0
  }

  /** A struct value (lines 76-85) reads exactly when every one of its members
      does, and fails with the error of the first member that does not. The
      object it reads as has exactly the members' names as keys, and each
      name holds the value of the last member that carries it. */
  lemma ParseStruct(number: string -> int, search: MemberSearch, node: Node)
    requires TypeOf(TypeName(node)) == Some(StructType)
    ensures var ms, r := MemberNodes(node, search), ParseValueWith(number, search, node);
      r.Success? <==> forall k | 0 <= k < |ms| :: MemberPair(number, search, ms[k]).Success?
    ensures var ms, r := MemberNodes(node, search), ParseValueWith(number, search, node);
      r.Failure? ==> exists k | 0 <= k < |ms| ::
        && MemberPair(number, search, ms[k]) == Failure(r.error)
        && forall m | 0 <= m < k :: MemberPair(number, search, ms[m]).Success?
    ensures var ms, r := MemberNodes(node, search), ParseValueWith(number, search, node);
      r.Success? ==>
        && r.value.RpcStruct?
        && forall name :: name in r.value.members <==>
             exists k | 0 <= k < |ms| && MemberPair(number, search, ms[k]).Success? :: MemberPair(number, search, ms[k]).value.0 == name
    ensures var ms, r := MemberNodes(node, search), ParseValueWith(number, search, node);
      r.Success? ==>
        && r.value.RpcStruct?
        && forall k | LastMember(number, search, ms, k) ::
          r.value.members[MemberPair(number, search, ms[k]).value.0] == MemberPair(number, search, ms[k]).value.1
  {
    StructReadsMembers(number, search, node);
    StructWithMeaning(number, search, node);
  }

  lemma StructReadsMembers(number: string -> int, search: MemberSearch, node: Node)
    requires TypeOf(TypeName(node)) == Some(StructType)
    ensures ParseValueWith(number, search, node) == StructWith(number, search, node)
  {
  }

  /** A struct value is the object built from its member pairs. */
  lemma StructOfPairs(number: string -> int, search: MemberSearch, node: Node)
    requires TypeOf(TypeName(node)) == Some(StructType)
    ensures ParseValueWith(number, search, node) ==
      match ParseMembers(number, search, MemberNodes(node, search), node)
      case Success(pairs) => Success(RpcStruct(ToMap(pairs)))
      case Failure(e) => Failure(e)
  {
    StructReadsMembers(number, search, node);
  }

  lemma StructWithMeaning(number: string -> int, search: MemberSearch, node: Node)
    ensures var ms, r := MemberNodes(node, search), StructWith(number, search, node);
      && (r.Success? <==> forall k | 0 <= k < |ms| :: MemberPair(number, search, ms[k]).Success?)
      && (r.Failure? ==> exists k | 0 <= k < |ms| ::
            && MemberPair(number, search, ms[k]) == Failure(r.error)
            && forall m | 0 <= m < k :: MemberPair(number, search, ms[m]).Success?)
      && (r.Success? ==>
            && r.value.RpcStruct?
            && (forall name :: name in r.value.members <==>
                  exists k | 0 <= k < |ms| && MemberPair(number, search, ms[k]).Success? :: MemberPair(number, search, ms[k]).value.0 == name)
            && forall k | LastMember(number, search, ms, k) ::
                 r.value.members[MemberPair(number, search, ms[k]).value.0] == MemberPair(number, search, ms[k]).value.1)
  {
    var ms := MemberNodes(node, search);
    ParseMembersSpec(number, search, ms, node);
    StructOfMembers(number, search, ms, StructWith(number, search, node), ParseMembers(number, search, ms, node));
  }

  /** The meaning of a struct read from the reading of its members. */
  lemma StructOfMembers(number: string -> int, search: MemberSearch, ms: seq<Node>,
                        r: Result<RpcValue, ParseError>, pm: Result<seq<(string, RpcValue)>, ParseError>)
    requires pm.Success? ==> |pm.value| == |ms| && r == Success(RpcStruct(ToMap(pm.value)))
    requires pm.Failure? ==> r == Failure(pm.error)
    requires pm.Success? <==> forall k | 0 <= k < |ms| :: MemberPair(number, search, ms[k]).Success?
    requires pm.Success? ==> forall k | 0 <= k < |ms| :: MemberPair(number, search, ms[k]) == Success(pm.value[k])
    requires pm.Failure? ==> exists k | 0 <= k < |ms| ::
      && MemberPair(number, search, ms[k]) == Failure(pm.error)
      && forall m | 0 <= m < k :: MemberPair(number, search, ms[m]).Success?
    ensures r.Success? <==> forall k | 0 <= k < |ms| :: MemberPair(number, search, ms[k]).Success?
    ensures r.Failure? ==> exists k | 0 <= k < |ms| ::
      && MemberPair(number, search, ms[k]) == Failure(r.error)
      && forall m | 0 <= m < k :: MemberPair(number, search, ms[m]).Success?
    ensures r.Success? ==>
      && r.value.RpcStruct?
      && (forall name :: name in r.value.members <==>
            exists k | 0 <= k < |ms| && MemberPair(number, search, ms[k]).Success? :: MemberPair(number, search, ms[k]).value.0 == name)
      && forall k | LastMember(number, search, ms, k) ::
           r.value.members[MemberPair(number, search, ms[k]).value.0] == MemberPair(number, search, ms[k]).value.1
  {
    if pm.Success? {
      ObjectOfMembers(number, search, ms, pm.value);
    }
  }

  /** The object built from the pairs the members read as. */
  lemma ObjectOfMembers(number: string -> int, search: MemberSearch, ms: seq<Node>, pairs: seq<(string, RpcValue)>)
    requires |pairs| == |ms|
    requires forall k | 0 <= k < |ms| :: MemberPair(number, search, ms[k]) == Success(pairs[k])
    ensures forall name :: name in ToMap(pairs) <==>
      exists k | 0 <= k < |ms| && MemberPair(number, search, ms[k]).Success? :: MemberPair(number, search, ms[k]).value.0 == name
    ensures forall k | LastMember(number, search, ms, k) ::
      ToMap(pairs)[MemberPair(number, search, ms[k]).value.0] == MemberPair(number, search, ms[k]).value.1
  {
    forall k | LastMember(number, search, ms, k)
      ensures pairs[k].0 in ToMap(pairs) && ToMap(pairs)[pairs[k].0] == pairs[k].1
    {
      assert LastOf(pairs, k) by {
        forall m | k < m < |pairs|
          ensures pairs[m].0 != pairs[k].0
        {
          assert MemberPair(number, search, ms[m]) == Success(pairs[m]);
        }
      }
      ToMapLastWins(pairs, k);
    }
  }

  /** The scalar converters (lines 64-74): a boolean is false exactly when
      its text is `0`, an int is the `Number` of its text, and a string, typed
      or not, is its text. */
  lemma ParseScalars(number: string -> int, search: MemberSearch, node: Node)
    ensures TypeName(node) == "boolean" ==>
      && ParseValueWith(number, search, node).Success?
      && ParseValueWith(number, search, node).value.RpcBool?
      && (!ParseValueWith(number, search, node).value.b <==> TextContent(node) == "0")
    ensures TypeName(node) == "int" ==> ParseValueWith(number, search, node) == Success(RpcInt(number(TextContent(node))))
    ensures TypeName(node) == "string" ==> ParseValueWith(number, search, node) == Success(RpcString(TextContent(node)))
  {
  }

  lemma ArrayReadsItems(number: string -> int, search: MemberSearch, node: Node)
    requires TypeOf(TypeName(node)) == Some(ArrayType)
    ensures ArrayItems(node).None? ==> ParseValueWith(number, search, node) == Failure(MissingElement("data"))
    ensures ArrayItems(node).Some? ==>
      ParseValueWith(number, search, node) ==
        match ParseItems(number, search, ArrayItems(node).value, node)
        case Success(values) => Success(RpcArray(values))
        case Failure(e) => Failure(e)
  {
  }

  /** An array read from its items: the facts of `ParseItemsSpec` carried
      over to the array value. */
  lemma ArrayOfItems(number: string -> int, search: MemberSearch, items: seq<Node>, parent: Node, r: Result<RpcValue, ParseError>)
    requires forall k | 0 <= k < |items| :: Size(items[k]) < Size(parent)
    requires r == match ParseItems(number, search, items, parent)
                  case Success(values) => Success(RpcArray(values))
                  case Failure(e) => Failure(e)
    ensures r.Success? <==> forall k | 0 <= k < |items| :: ParseValueWith(number, search, items[k]).Success?
    ensures r.Success? ==>
      && r.value.RpcArray? && |r.value.items| == |items|
      && forall k | 0 <= k < |items| :: ParseValueWith(number, search, items[k]) == Success(r.value.items[k])
    ensures r.Failure? ==> exists k | 0 <= k < |items| ::
      && ParseValueWith(number, search, items[k]) == Failure(r.error)
      && forall m | 0 <= m < k :: ParseValueWith(number, search, items[m]).Success?
  {
    ParseItemsSpec(number, search, items, parent);
  }

  lemma ArrayItemsOfData(node: Node, data: Node)
    requires Find(Children(node), "data") == Some(data)
    ensures ArrayItems(node) == Some(ElementsOf(data.children))
  {
  }

  lemma ArrayData(number: string -> int, search: MemberSearch, node: Node, items: seq<Node>)
    requires TypeName(node) == "array" && ArrayItems(node) == Some(items)
    ensures ParseValueWith(number, search, node).Success? <==> forall k | 0 <= k < |items| :: ParseValueWith(number, search, items[k]).Success?
    ensures ParseValueWith(number, search, node).Success? ==>
      var v := ParseValueWith(number, search, node).value;
      && v.RpcArray? && |v.items| == |items|
      && forall k | 0 <= k < |items| :: ParseValueWith(number, search, items[k]) == Success(v.items[k])
    ensures ParseValueWith(number, search, node).Failure? ==>
      var e := ParseValueWith(number, search, node).error;
      exists k | 0 <= k < |items| ::
        && ParseValueWith(number, search, items[k]) == Failure(e)
        && forall m | 0 <= m < k :: ParseValueWith(number, search, items[m]).Success?
  {
    assert TypeOf(TypeName(node)) == Some(ArrayType);
    ArrayReadsItems(number, search, node);
    ArrayOfItems(number, search, items, node, ParseValueWith(number, search, node));
  }

  /** The array converter (line 61) when the value has no `data` element:
      the lookup throws. */
  lemma ArrayWithoutData(number: string -> int, search: MemberSearch, node: Node)
    requires TypeName(node) == "array" && Find(Children(node), "data").None?
    ensures ParseValueWith(number, search, node) == Failure(MissingElement("data"))
  {
    assert TypeOf(TypeName(node)) == Some(ArrayType);
  }

  /** The array converter (line 61) when `data` is the value's first `data`
      element: the array is the element children of `data`, each read as a
      value, in order, and the first child that cannot be read decides the
      error. */
  lemma ParseArray(number: string -> int, search: MemberSearch, node: Node, data: Node)
    requires TypeName(node) == "array" && Find(Children(node), "data") == Some(data)
    ensures var items := ElementsOf(data.children);
      ParseValueWith(number, search, node).Success? <==> forall k | 0 <= k < |items| :: ParseValueWith(number, search, items[k]).Success?
    ensures ParseValueWith(number, search, node).Success? ==>
      var items, v := ElementsOf(data.children), ParseValueWith(number, search, node).value;
      && v.RpcArray? && |v.items| == |items|
      && forall k | 0 <= k < |items| :: ParseValueWith(number, search, items[k]) == Success(v.items[k])
    ensures ParseValueWith(number, search, node).Failure? ==>
      var items, e := ElementsOf(data.children), ParseValueWith(number, search, node).error;
      exists k | 0 <= k < |items| ::
        && ParseValueWith(number, search, items[k]) == Failure(e)
        && forall m | 0 <= m < k :: ParseValueWith(number, search, items[m]).Success?
  {
    ArrayItemsOfData(node, data);
    ArrayData(number, search, node, ElementsOf(data.children));
  }

  /** The boolean responses of the parser's tests: `<boolean>0</boolean>`
      is false and `<boolean>1</boolean>` true. */
  lemma BooleanExamples(number: string -> int)
    ensures ParseValue(number, Element("value", [TextElement("boolean", "0")])) == Success(RpcBool(false))
    ensures ParseValue(number, Element("value", [TextElement("boolean", "1")])) == Success(RpcBool(true))
  {
    var f, t := Element("value", [TextElement("boolean", "0")]), Element("value", [TextElement("boolean", "1")]);
    assert TypeName(f) == "boolean" && TextContent(f) == "0";
    assert TypeName(t) == "boolean" && TextContent(t) == "1";
    ParseScalars(number, DirectChildren, f);
    ParseScalars(number, DirectChildren, t);
  }

  /** The array response of the parser's tests: a `data` holding one
      untyped value is an array of that one string. */
  lemma ArrayExample(number: string -> int)
    ensures ParseValue(number, Element("value", [Element("array", [Element("data", [TextElement("value", "aString")])])]))
      == Success(RpcArray([RpcString("aString")]))
  {
    var item := TextElement("value", "aString");
    var data := Element("data", [item]);
    var arr := Element("value", [Element("array", [data])]);
    assert TypeName(arr) == "array";
    assert FindFirstIn(data, "data") == Some(data);
    assert Find([data], "data") == Some(data);
    assert FindFirstIn(Element("array", [data]), "data") == Some(data);
    assert Find(Children(arr), "data") == Some(data);
    assert ElementsOf(data.children) == [item];
    assert TypeName(item) == "string" && TextContent(item) == "aString";
    ParseScalars(number, DirectChildren, item);
    ParseArray(number, DirectChildren, arr, data);
    var v := ParseValue(number, arr).value;
    assert v.items == [RpcString("aString")];
  }

  /** A value read with a struct's members taken from the `struct` element's
      own children. */
  function ParseValue(number: string -> int, node: Node): (r: Result<RpcValue, ParseError>)
    ensures TypeOf(TypeName(node)).None? ==> r == Failure(UnsupportedType(TypeName(node)))
    ensures r.Success? ==> TypeOf(TypeName(node)) == Some(KindOf(r.value))
  {
    ParseValueKind(number, DirectChildren, node);
    ParseValueWith(number, DirectChildren, node)
  }

  /** A value read as line 78 reads a struct: every `member` element below the
      value counts, those of nested structs included. */
  function ParseValueAsWritten(number: string -> int, node: Node): (r: Result<RpcValue, ParseError>)
    ensures TypeOf(TypeName(node)).None? ==> r == Failure(UnsupportedType(TypeName(node)))
    ensures r.Success? ==> TypeOf(TypeName(node)) == Some(KindOf(r.value))
  {
    ParseValueKind(number, Descendants, node);
    ParseValueWith(number, Descendants, node)
  }

  /** `valueFromDom` (lines 9-25, 27-30, 87-93) on the document element,
      with structs read by the given member search: no element child means no
      value; a `params` first child means the first `value` of the document
      is returned; anything else is a fault, whose message is the first
      `int`'s number, `": "` and the first `string`'s text. */
  function ResponseWith(number: string -> int, search: MemberSearch, root: Node): (r: Result<Response, ParseError>)
    ensures FirstElement(Children(root)).None? ==> r == Success(NoValue)
    ensures r.Success? && r.value.Returned? ==> FirstElement(Children(root)).Some? && FirstElement(Children(root)).value.tag == "params"
    ensures r.Success? && r.value.Fault? ==> FirstElement(Children(root)).Some? && FirstElement(Children(root)).value.tag != "params"
    // A `params` response returns the reading of the document's first `value`
    ensures FirstElement(Children(root)).Some? && FirstElement(Children(root)).value.tag == "params" ==>
      match Find([root], "value")
      case None => r == Failure(MissingElement("value"))
      case Some(v) =>
        && (r.Success? <==> ParseValueWith(number, search, v).Success?)
        && (r.Success? ==> r.value == Returned(ParseValueWith(number, search, v).value))
        && (r.Failure? ==> r.error == ParseValueWith(number, search, v).error)
    // Any other response is a fault built from the first `int` and `string`
    ensures FirstElement(Children(root)).Some? && FirstElement(Children(root)).value.tag != "params" ==>
      match (Find([root], "int"), Find([root], "string"))
      case (None, _) => r == Failure(MissingElement("int"))
      case (Some(_), None) => r == Failure(MissingElement("string"))
      case (Some(code), Some(message)) =>
        r == Success(Fault(IntString(number(TextContent(code))) + ": " + TextContent(message)))
  {
    match FirstElement(Children(root))
    case None => Success(NoValue)
    case Some(first) =>
      if first.tag == "params" then
        match Find([root], "value")
        case None => Failure(MissingElement("value"))
        case Some(valueNode) =>
          var v :- ParseValueWith(number, search, valueNode);
          Success(Returned(v))
      else
        match Find([root], "int")
        case None => Failure(MissingElement("int"))
        case Some(code) =>
          match Find([root], "string")
          case None => Failure(MissingElement("string"))
          case Some(message) =>
            Success(Fault(IntString(number(TextContent(code))) + ": " + TextContent(message)))
  }

  /** A response whose returned value is read with each struct's own members
      only; only the returned value differs from the source's reading. */
  function ParseResponse(number: string -> int, root: Node): (r: Result<Response, ParseError>)
    ensures FirstElement(Children(root)).Some? && FirstElement(Children(root)).value.tag == "params" && Find([root], "value").Some? ==>
      var v := Find([root], "value").value;
      && (r.Success? <==> ParseValue(number, v).Success?)
      && (r.Success? ==> r.value == Returned(ParseValue(number, v).value))
    ensures !(FirstElement(Children(root)).Some? && FirstElement(Children(root)).value.tag == "params" && Find([root], "value").Some?) ==>
      r == ParseResponseAsWritten(number, root)
  {
    ResponseWith(number, DirectChildren, root)
  }

  /** The response as lines 27-30 read it: the returned value goes through
      `valueFromValueNode`, whose struct converter takes every `member` below
      the value (line 78). */
  function ParseResponseAsWritten(number: string -> int, root: Node): (r: Result<Response, ParseError>)
    ensures FirstElement(Children(root)).Some? && FirstElement(Children(root)).value.tag == "params" && Find([root], "value").Some? ==>
      var v := Find([root], "value").value;
      && (r.Success? <==> ParseValueAsWritten(number, v).Success?)
      && (r.Success? ==> r.value == Returned(ParseValueAsWritten(number, v).value))
  {
    ResponseWith(number, Descendants, root)
  }
}
