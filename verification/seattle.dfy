/** The pure parts of the node-manager client (seattle.js): the validation
    `call` performs before building a request, the zip of parameter names and
    values, the parser of a node's `GetVessels` report, and vessel ids. */
module Seattle {
  import opened Wrappers
  import opened Text

  // ---------------------------------------------------------------------------
  // `call`: the signature table and its checks (seattle.js:9-33, 61-72)
  // ---------------------------------------------------------------------------

  /** The supported node-manager methods and their parameter names, in table
      order. */
  const Signatures: seq<(string, seq<string>)> := [
    ("GetVessels", []),
    ("AddFileToVessel", ["vesselname", "filename", "filedata"]),
    ("ReadVesselLog", ["vesselname"]),
    ("RetrieveFileFromVessel", ["vesselname", "filename"]),
    ("ResetVessel", ["vesselname"]),
    ("StartVessel", ["vesselname", "args"]),
    ("StartVesselEx", ["vesselname", "program_platform", "args"]),
    ("StopVessel", ["vesselname"])
  ]

  /** The parameter names of a supported method. */
  function SignatureOf(name: string): (r: Option<seq<string>>)
    ensures r.Some? <==> exists k | 0 <= k < |Signatures| :: Signatures[k].0 == name
    ensures r.Some? ==> exists k | 0 <= k < |Signatures| :: Signatures[k] == (name, r.value)
  {
    Find(Signatures, name)
  }

  function Find(table: seq<(string, seq<string>)>, name: string): (r: Option<seq<string>>)
    ensures r.Some? <==> exists k | 0 <= k < |table| :: table[k].0 == name
    ensures r.Some? ==> exists k | 0 <= k < |table| :: table[k] == (name, r.value)
    decreases |table|
  {
    if |table| == 0 then None
    else if table[0].0 == name then Some(table[0].1)
    else
      var r := Find(table[1..], name);
      assert forall k | 1 <= k < |table| :: table[k] == table[1..][k - 1];
      r
  }

  predicate DistinctNames(names: seq<string>) {
    forall i, j | 0 <= i < j < |names| :: names[i] != names[j]
  }

  /** No signature names a parameter twice. */
  lemma SignaturesDistinct(name: string)
    requires SignatureOf(name).Some?
    ensures DistinctNames(SignatureOf(name).value)
  {
    TableDistinct();
    var k :| 0 <= k < |Signatures| && Signatures[k] == (name, SignatureOf(name).value);
  }

  lemma TableDistinct()
    ensures forall k | 0 <= k < |Signatures| :: DistinctNames(Signatures[k].1)
  {
    assert "filename"[4] != "filedata"[4];
  }

  datatype CallError =
    /** The method is not in the table (lines 21-25). */
    | UnsupportedMethod(name: string)
    /** The argument count differs from the signature's (lines 28-33). */
    | WrongArity(name: string, given: nat, expected: nat)
    /** The same check when the entry has no `length` at all, so the
        comparison with the argument count never holds (`__proto__` as
        written). */
    | UndefinedArity(name: string, given: nat)
    /** `objectFromLists` got lists of different lengths (lines 62-64). */
    | LengthMismatch

  /** The object built by `values.forEach(... object[keys[i]] = value)` after
      the first `n` pairs. */
  function Assign<V>(keys: seq<string>, values: seq<V>, n: nat): (r: map<string, V>)
    requires n <= |keys| == |values|
    ensures forall key :: key in r <==> exists k | 0 <= k < n :: keys[k] == key
  {
    if n == 0 then map[]
    else Assign(keys, values, n - 1)[keys[n - 1] := values[n - 1]]
  }

  /** A key keeps the value of its last assignment. */
  lemma {:induction false} AssignLastWins<V>(keys: seq<string>, values: seq<V>, n: nat, k: nat)
    requires n <= |keys| == |values|
    requires k < n && forall j | k < j < n :: keys[j] != keys[k]
    ensures keys[k] in Assign(keys, values, n) && Assign(keys, values, n)[keys[k]] == values[k]
    decreases n
  {
    if k < n - 1 {
      AssignLastWins(keys, values, n - 1, k);
    }
  }

  /** `objectFromLists`: the object mapping each key to its value, a later
      duplicate key overwriting an earlier one. */
  function ObjectFromLists<V>(keys: seq<string>, values: seq<V>): (r: Result<map<string, V>, CallError>)
    ensures r.Failure? <==> |keys| != |values|
    ensures r.Failure? ==> r.error == LengthMismatch
    ensures r.Success? ==> forall key :: key in r.value <==> key in keys
    ensures r.Success? ==> forall k | 0 <= k < |keys| && (forall j | k < j < |keys| :: keys[j] != keys[k]) ::
      r.value[keys[k]] == values[k]
  {
    if |keys| != |values| then Failure(LengthMismatch)
    else
      var m := Assign(keys, values, |keys|);
      assert forall key :: key in keys ==> exists k | 0 <= k < |keys| :: keys[k] == key;
      assert forall k | 0 <= k < |keys| && (forall j | k < j < |keys| :: keys[j] != keys[k]) :: m[keys[k]] == values[k] by {
        forall k | 0 <= k < |keys| && (forall j | k < j < |keys| :: keys[j] != keys[k])
          ensures m[keys[k]] == values[k]
        {
          AssignLastWins(keys, values, |keys|, k);
        }
      }
      Success(m)
  }

  /** The checks `call` makes before any request is built, and the parameter
      object it sends: the method must be in the table and the number of
      arguments must match its signature; each parameter name then carries the
      argument at its position. The length check of `objectFromLists` never
      fires from here. */
  function Call<V>(name: string, args: seq<V>): (r: Result<map<string, V>, CallError>)
    ensures r.Failure? && r.error.UnsupportedMethod? <==> SignatureOf(name).None?
    ensures r.Failure? && r.error.WrongArity? <==> SignatureOf(name).Some? && |SignatureOf(name).value| != |args|
    ensures r.Failure? ==> !r.error.LengthMismatch?
    ensures r.Success? ==>
      var names := SignatureOf(name).value;
      && |names| == |args|
      && (forall key :: key in r.value <==> key in names)
      && (forall k | 0 <= k < |names| :: r.value[names[k]] == args[k])
  {
    match SignatureOf(name)
    case None => Failure(UnsupportedMethod(name))
    case Some(names) =>
      if |names| != |args| then Failure(WrongArity(name, |args|, |names|))
      else
        SignaturesDistinct(name);
        ObjectFromLists(names, args)
  }

  // As written, line 21 tests membership with `in`, which also sees the
  // properties every object inherits from Object.prototype. The methods among
  // them are functions; `length` on them is their declared parameter count
  // and indexing them gives undefined, so the parameter names become
  // "undefined". `__proto__` is Object.prototype itself, which has no
  // `length`, so the arity test always fails for it.

  /** The methods of Object.prototype and their `length`: those of section
      15.2.4 of ECMA-262, 5.1 edition, and the accessor helpers of section
      B.2.2 of ECMA-262, 2017 edition. */
  function InheritedArity(name: string): Option<nat> {
    if name in {"toString", "toLocaleString", "valueOf"} then Some(0)
    else if name in {"constructor", "hasOwnProperty", "isPrototypeOf", "propertyIsEnumerable"} then Some(1)
    else if name in {"__lookupGetter__", "__lookupSetter__"} then Some(1)
    else if name in {"__defineGetter__", "__defineSetter__"} then Some(2)
    else None
  }

  const Proto := "__proto__"

  /** Names that pass the membership test as written without being in the
      table. */
  predicate Inherited(name: string) {
    InheritedArity(name).Some? || name == Proto
  }

  function Undefineds(n: nat): (r: seq<string>)
    ensures |r| == n && forall k | 0 <= k < n :: r[k] == "undefined"
  {
    seq(n, k => "undefined")
  }

  /** `call` as written: an inherited name passes the membership test. */
  function CallAsWritten<V>(name: string, args: seq<V>): (r: Result<map<string, V>, CallError>)
    ensures SignatureOf(name).Some? ==> r == Call(name, args)
    ensures SignatureOf(name).None? && !Inherited(name) ==> r == Failure(UnsupportedMethod(name))
    ensures r.Failure? && r.error.UnsupportedMethod? <==> SignatureOf(name).None? && !Inherited(name)
    ensures SignatureOf(name).None? && name == Proto ==> r == Failure(UndefinedArity(name, |args|))
    ensures SignatureOf(name).None? && InheritedArity(name).Some? ==>
      && (r.Success? <==> InheritedArity(name).value == |args|)
      && (r.Success? ==> forall key | key in r.value :: key == "undefined")
  {
    match SignatureOf(name)
    case Some(_) => Call(name, args)
    case None =>
      match InheritedArity(name)
      case None =>
        if name == Proto then Failure(UndefinedArity(name, |args|))
        else Failure(UnsupportedMethod(name))
      case Some(n) =>
        if n != |args| then Failure(WrongArity(name, |args|, n))
        else ObjectFromLists(Undefineds(n), args)
  }

  /** `toString` is not a node-manager method, yet with no arguments it passes
      both checks and a request for it would be sent. */
  lemma CallAcceptsInheritedName()
    ensures SignatureOf("toString").None?
    ensures CallAsWritten<int>("toString", []) == Success(map[])
    ensures Call<int>("toString", []) == Failure(UnsupportedMethod("toString"))
  {
    assert forall k | 0 <= k < |Signatures| :: Signatures[k].0 != "toString";
  }

  // ---------------------------------------------------------------------------
  // `parseVesselStatus` (seattle.js:86-95)
  // ---------------------------------------------------------------------------

  const NameMarker := "Name: "
  const StatusMarker := "Status: "

  datatype StatusError =
    /** `match(/^(.*)\n/)` found nothing: the block's first line terminator is
        not `\n` or there is none. */
    | NoNameLine(block: string)
    /** `match(/Status: (.*)\n/)` found nothing. */
    | NoStatusLine(block: string)

  /** The vessel name: the block's text up to its first line terminator,
      which must be `\n`. */
  function NameOf(block: string): Option<string> {
    RestOfLine(block, 0)
  }

  /** `/Status: (.*)\n/` matches at position `p`. */
  predicate StatusAt(block: string, p: nat) {
    OccursAt(block, StatusMarker, p) && RestOfLine(block, p + |StatusMarker|).Some?
  }

  /** The leftmost position from `from` on where the status pattern matches. */
  function StatusPosition(block: string, from: nat): (r: Option<nat>)
    ensures r.Some? ==> from <= r.value && StatusAt(block, r.value)
    ensures r.Some? ==> forall q | from <= q < r.value :: !StatusAt(block, q)
    ensures r.None? ==> forall q | from <= q :: !StatusAt(block, q)
    decreases |block| - from
  {
    if from + |StatusMarker| > |block| then None
    else if StatusAt(block, from) then Some(from)
    else StatusPosition(block, from + 1)
  }

  /** The vessel status: what follows the first matching `Status: ` up to the
      end of its line. */
  function StatusOf(block: string): Option<string> {
    match StatusPosition(block, 0)
    case None => None
    case Some(p) => RestOfLine(block, p + |StatusMarker|)
  }

  predicate BlockOk(block: string) {
    NameOf(block).Some? && StatusOf(block).Some?
  }

  /** No later block carries the same name as block `k`. */
  predicate LastNamed(blocks: seq<string>, k: nat)
    requires k < |blocks|
  {
    forall j | k < j < |blocks| :: NameOf(blocks[j]) != NameOf(blocks[k])
  }

  /** The blocks folded into a name-to-status map in order; the first bad
      block decides the error. */
  function ParseBlocks(blocks: seq<string>): (r: Result<map<string, string>, StatusError>)
    ensures r.Success? ==> |r.value.Keys| <= |blocks|
    decreases |blocks|
  {
    if |blocks| == 0 then Success(map[])
    else
      var b := blocks[|blocks| - 1];
      match ParseBlocks(blocks[..|blocks| - 1])
      case Failure(e) => Failure(e)
      case Success(earlier) =>
        if NameOf(b).None? then Failure(NoNameLine(b))
        else if StatusOf(b).None? then Failure(NoStatusLine(b))
        else
          var m := earlier[NameOf(b).value := StatusOf(b).value];
          assert m.Keys == earlier.Keys + {NameOf(b).value};
          Success(m)
  }

  /** The error a bad block gives. */
  function BlockError(block: string): StatusError {
    if NameOf(block).None? then NoNameLine(block) else NoStatusLine(block)
  }

  /** Block `k` is the first bad one. */
  predicate FirstBad(blocks: seq<string>, k: nat)
    requires k < |blocks|
  {
    !BlockOk(blocks[k]) && forall j | 0 <= j < k :: BlockOk(blocks[j])
  }

  /** Parsing the blocks fails exactly when one is bad, and then with the
      error of the first bad one. */
  lemma {:induction false} ParseBlocksFails(blocks: seq<string>)
    ensures ParseBlocks(blocks).Success? <==> forall k | 0 <= k < |blocks| :: BlockOk(blocks[k])
    ensures ParseBlocks(blocks).Failure? ==> exists k | 0 <= k < |blocks| ::
      FirstBad(blocks, k) && ParseBlocks(blocks).error == BlockError(blocks[k])
    decreases |blocks|
  {
    if |blocks| > 0 {
      var init := blocks[..|blocks| - 1];
      var b := blocks[|blocks| - 1];
      ParseBlocksFails(init);
      AllOkSnoc(blocks, init);
      if ParseBlocks(init).Failure? {
        var k :| 0 <= k < |init| && FirstBad(init, k) && ParseBlocks(init).error == BlockError(init[k]);
        FirstBadSnoc(blocks, k);
        assert ParseBlocks(blocks) == ParseBlocks(init);
      } else if !BlockOk(b) {
        assert FirstBad(blocks, |init|);
        assert ParseBlocks(blocks) == Failure(BlockError(b));
      }
    }
  }

  lemma AllOkSnoc(blocks: seq<string>, init: seq<string>)
    requires |blocks| > 0 && init == blocks[..|blocks| - 1]
    ensures (forall k | 0 <= k < |blocks| :: BlockOk(blocks[k])) <==>
      (forall k | 0 <= k < |init| :: BlockOk(init[k])) && BlockOk(blocks[|blocks| - 1])
  {
    assert forall k | 0 <= k < |init| :: init[k] == blocks[k];
  }

  lemma FirstBadSnoc(blocks: seq<string>, k: nat)
    requires k < |blocks| - 1 && FirstBad(blocks[..|blocks| - 1], k)
    ensures blocks[..|blocks| - 1][k] == blocks[k] && FirstBad(blocks, k)
  {
    assert forall j | 0 <= j <= k :: blocks[..|blocks| - 1][j] == blocks[j];
  }

  /** A successful parse is the parse of all blocks but the last, with the
      last block's name set to its status. */
  lemma ParseBlocksSnoc(blocks: seq<string>)
    requires |blocks| > 0 && ParseBlocks(blocks).Success?
    ensures ParseBlocks(blocks[..|blocks| - 1]).Success?
    ensures BlockOk(blocks[|blocks| - 1])
    ensures var b := blocks[|blocks| - 1];
      ParseBlocks(blocks).value == ParseBlocks(blocks[..|blocks| - 1]).value[NameOf(b).value := StatusOf(b).value]
  {
  }

  /** Some block carries the name. */
  predicate Named(blocks: seq<string>, name: string) {
    exists k | 0 <= k < |blocks| :: NameOf(blocks[k]) == Some(name)
  }

  lemma NamedSnoc(blocks: seq<string>, name: string)
    requires |blocks| > 0
    ensures Named(blocks, name) <==> Named(blocks[..|blocks| - 1], name) || NameOf(blocks[|blocks| - 1]) == Some(name)
  {
    var init := blocks[..|blocks| - 1];
    if Named(init, name) {
      var k :| 0 <= k < |init| && NameOf(init[k]) == Some(name);
      assert blocks[k] == init[k];
    }
    if Named(blocks, name) {
      var k :| 0 <= k < |blocks| && NameOf(blocks[k]) == Some(name);
      if k < |init| {
        assert init[k] == blocks[k];
      }
    }
  }

  /** A successful parse maps exactly the names of the blocks. */
  lemma {:induction false} ParseBlocksKeys(blocks: seq<string>)
    requires ParseBlocks(blocks).Success?
    ensures forall name :: name in ParseBlocks(blocks).value <==> Named(blocks, name)
    decreases |blocks|
  {
    if |blocks| > 0 {
      var init := blocks[..|blocks| - 1];
      ParseBlocksSnoc(blocks);
      ParseBlocksKeys(init);
      forall name
        ensures name in ParseBlocks(blocks).value <==> Named(blocks, name)
      {
        NamedSnoc(blocks, name);
      }
    }
  }

  /** In a successful parse each name maps to the status of the last block
      with that name. */
  lemma {:induction false} ParseBlocksLastWins(blocks: seq<string>)
    requires ParseBlocks(blocks).Success?
    ensures forall k | 0 <= k < |blocks| && LastNamed(blocks, k) ::
      && NameOf(blocks[k]).Some? && StatusOf(blocks[k]).Some?
      && NameOf(blocks[k]).value in ParseBlocks(blocks).value
      && ParseBlocks(blocks).value[NameOf(blocks[k]).value] == StatusOf(blocks[k]).value
    decreases |blocks|
  {
    if |blocks| > 0 {
      var init := blocks[..|blocks| - 1];
      ParseBlocksSnoc(blocks);
      ParseBlocksLastWins(init);
      var b := blocks[|blocks| - 1];
      var m0, m := ParseBlocks(init).value, ParseBlocks(blocks).value;
      forall k | 0 <= k < |blocks| && LastNamed(blocks, k)
        ensures NameOf(blocks[k]).Some? && StatusOf(blocks[k]).Some?
        ensures NameOf(blocks[k]).value in m && m[NameOf(blocks[k]).value] == StatusOf(blocks[k]).value
      {
        if k < |init| {
          LastNamedInit(blocks, k);
          var name := NameOf(blocks[k]).value;
          assert name in m0 && m0[name] == StatusOf(blocks[k]).value;
          assert name != NameOf(b).value;
        } else {
          assert blocks[k] == b;
        }
      }
    }
  }

  /** A block that no later block renames is, within all blocks but the
      last, still the last with its name, and its name is not the last
      block's. */
  lemma LastNamedInit(blocks: seq<string>, k: nat)
    requires k < |blocks| - 1 && LastNamed(blocks, k)
    ensures blocks[..|blocks| - 1][k] == blocks[k]
    ensures NameOf(blocks[k]) != NameOf(blocks[|blocks| - 1])
    ensures LastNamed(blocks[..|blocks| - 1], k)
  {
    var init := blocks[..|blocks| - 1];
    forall j | k < j < |init|
      ensures NameOf(init[j]) != NameOf(init[k])
    {
      assert init[j] == blocks[j];
    }
  }

  /** `parseVesselStatus`: the text after each `Name: ` is one vessel's
      block; the text before the first is ignored. */
  function ParseVesselStatus(report: string): (r: Result<map<string, string>, StatusError>)
    ensures IndexOf(report, NameMarker, 0) == -1 ==> r == Success(map[])
  {
    ParseBlocks(SplitText(report, NameMarker)[1..])
  }

  // The node manager's side: the report a node writes.

  /** One vessel's entry: its name, its status and the further lines the node
      manager writes about it. */
  datatype VesselReport = VesselReport(name: string, status: string, rest: string)

  function Block(v: VesselReport): string {
    v.name + "\n" + StatusMarker + v.status + "\n" + v.rest
  }

  predicate OneLine(s: string) {
    forall k | 0 <= k < |s| :: !IsLineTerminator(s[k])
  }

  /** An entry the parser can read: name and status are single lines, the
      name holds no `Status: `, no `Name: ` occurs in the entry, and the
      further lines end with a line break. */
  predicate Reportable(v: VesselReport) {
    && OneLine(v.name)
    && OneLine(v.status)
    && IndexOf(v.name, StatusMarker, 0) == -1
    && IndexOf(Block(v), NameMarker, 0) == -1
    && (|v.rest| == 0 || v.rest[|v.rest| - 1] == '\n')
  }

  function Blocks(vessels: seq<VesselReport>): (r: seq<string>)
    ensures |r| == |vessels| && forall k | 0 <= k < |vessels| :: r[k] == Block(vessels[k])
  {
    seq(|vessels|, k requires 0 <= k < |vessels| => Block(vessels[k]))
  }

  /** The report text: a preamble, then each entry after a `Name: `. */
  function NodeReport(preamble: string, vessels: seq<VesselReport>): string {
    JoinText([preamble] + Blocks(vessels), NameMarker)
  }

  /** The statuses a report lists, a later entry for a name replacing an
      earlier one. */
  function Listed(vessels: seq<VesselReport>): map<string, string>
    decreases |vessels|
  {
    if |vessels| == 0 then map[]
    else
      var v := vessels[|vessels| - 1];
      Listed(vessels[..|vessels| - 1])[v.name := v.status]
  }

  /** Scanning from `from` finds `p` when the pattern matches there and
      nowhere between. */
  lemma {:induction false} StatusPositionFinds(block: string, from: nat, p: nat)
    requires from <= p && StatusAt(block, p)
    requires forall q | from <= q < p :: !StatusAt(block, q)
    ensures StatusPosition(block, from) == Some(p)
    decreases p - from
  {
    if from < p {
      assert !StatusAt(block, from);
      StatusPositionFinds(block, from + 1, p);
    }
  }

  /** The status pattern first matches at `p` when it matches there and
      nowhere before. */
  lemma StatusFirstAt(block: string, p: nat)
    requires StatusAt(block, p)
    requires forall q | 0 <= q < p :: !StatusAt(block, q)
    ensures StatusOf(block) == RestOfLine(block, p + |StatusMarker|)
  {
    StatusPositionFinds(block, 0, p);
  }

  /** The first `Status: ` of an entry is the one after the name line. */
  lemma StatusMarkerAfterName(v: VesselReport)
    requires Reportable(v)
    ensures IndexOf(Block(v), StatusMarker, 0) == |v.name| + 1
  {
    IndexOfBarrier(v.name, '\n', StatusMarker);
    NoStraddle(v.name + "\n", StatusMarker);
    assert Block(v) == (v.name + "\n" + StatusMarker) + (v.status + "\n" + v.rest);
    IndexOfExtend(v.name + "\n" + StatusMarker, StatusMarker, v.status + "\n" + v.rest);
  }

  lemma ReadEntry(v: VesselReport)
    requires Reportable(v)
    ensures NameOf(Block(v)) == Some(v.name)
    ensures StatusOf(Block(v)) == Some(v.status)
  {
    ReadEntryName(v);
    ReadEntryStatus(v);
  }

  lemma ReadEntryName(v: VesselReport)
    requires Reportable(v)
    ensures NameOf(Block(v)) == Some(v.name)
  {
    var b := Block(v);
    assert b == v.name + ("\n" + StatusMarker + v.status + "\n" + v.rest);
    assert forall k | 0 <= k < |v.name| :: b[k] == v.name[k];
    RestOfLineAt(b, 0, v.name);
  }

  lemma ReadEntryStatus(v: VesselReport)
    requires Reportable(v)
    ensures StatusOf(Block(v)) == Some(v.status)
  {
    var b := Block(v);
    var p := |v.name| + 1;
    var from := p + |StatusMarker|;
    var head := v.name + "\n" + StatusMarker;
    assert b == head + (v.status + "\n" + v.rest);
    assert |head| == from;
    assert forall k | 0 <= k < |v.status| :: b[from + k] == v.status[k];
    assert b[from + |v.status|] == '\n';
    RestOfLineAt(b, from, v.status);
    StatusMarkerAfterName(v);
    StatusFirstAt(b, p);
  }

  lemma {:induction false} ParseListed(vessels: seq<VesselReport>)
    requires forall k | 0 <= k < |vessels| :: Reportable(vessels[k])
    ensures ParseBlocks(Blocks(vessels)) == Success(Listed(vessels))
    decreases |vessels|
  {
    if |vessels| > 0 {
      var init := vessels[..|vessels| - 1];
      var v := vessels[|vessels| - 1];
      assert Blocks(vessels)[..|vessels| - 1] == Blocks(init);
      ParseListed(init);
      ReadEntry(v);
    }
  }

  /** Every entry ends with a line break. */
  lemma BlockEndsLine(v: VesselReport)
    requires Reportable(v)
    ensures Block(v)[|Block(v)| - 1] == '\n'
  {
    if |v.rest| == 0 {
      assert Block(v) == v.name + "\n" + StatusMarker + v.status + "\n";
    }
  }

  /** The `Name: ` written after an entry is the first in the entry and
      separator. */
  lemma SeparatorAfterBlock(v: VesselReport)
    requires Reportable(v)
    ensures IndexOf(Block(v) + NameMarker, NameMarker, 0) == |Block(v)|
  {
    BlockEndsLine(v);
    NoStraddle(Block(v), NameMarker);
  }

  /** The `Name: ` after each part of a report is the first one in it. */
  lemma ReportSeparators(preamble: string, vessels: seq<VesselReport>)
    requires IndexOf(preamble, NameMarker, 0) == -1
    requires |preamble| == 0 || preamble[|preamble| - 1] == '\n'
    requires forall k | 0 <= k < |vessels| :: Reportable(vessels[k])
    ensures var parts := [preamble] + Blocks(vessels);
      && (forall k | 0 <= k < |parts| - 1 :: IndexOf(parts[k] + NameMarker, NameMarker, 0) == |parts[k]|)
      && IndexOf(parts[|parts| - 1], NameMarker, 0) == -1
  {
    var parts := [preamble] + Blocks(vessels);
    forall k | 0 <= k < |parts| - 1
      ensures IndexOf(parts[k] + NameMarker, NameMarker, 0) == |parts[k]|
    {
      PartSeparated(preamble, vessels, k);
    }
    if |vessels| > 0 {
      assert parts[|parts| - 1] == Block(vessels[|vessels| - 1]);
    }
  }

  lemma PartSeparated(preamble: string, vessels: seq<VesselReport>, k: nat)
    requires IndexOf(preamble, NameMarker, 0) == -1
    requires |preamble| == 0 || preamble[|preamble| - 1] == '\n'
    requires k <= |vessels| && (k > 0 ==> Reportable(vessels[k - 1]))
    ensures var part := ([preamble] + Blocks(vessels))[k];
      IndexOf(part + NameMarker, NameMarker, 0) == |part|
  {
    if k == 0 {
      NoStraddle(preamble, NameMarker);
    } else {
      assert ([preamble] + Blocks(vessels))[k] == Block(vessels[k - 1]);
      SeparatorAfterBlock(vessels[k - 1]);
    }
  }

  /** Parsing a node's report gives back the status of every listed vessel,
      and nothing else. */
  lemma ParseNodeReport(preamble: string, vessels: seq<VesselReport>)
    requires IndexOf(preamble, NameMarker, 0) == -1
    requires |preamble| == 0 || preamble[|preamble| - 1] == '\n'
    requires forall k | 0 <= k < |vessels| :: Reportable(vessels[k])
    ensures ParseVesselStatus(NodeReport(preamble, vessels)) == Success(Listed(vessels))
  {
    var parts := [preamble] + Blocks(vessels);
    ReportSeparators(preamble, vessels);
    SplitJoinText(parts, NameMarker);
    assert parts[1..] == Blocks(vessels);
    ParseListed(vessels);
  }

  // ---------------------------------------------------------------------------
  // `vesselId` (seattle.js:97-99)
  // ---------------------------------------------------------------------------

  /** The node manager a vessel lives on and the vessel's name there. */
  datatype Vessel = Vessel(ip: string, port: int, name: string)

  /** A vessel is identified by its IP address alone. */
  function VesselId(v: Vessel): string {
    v.ip
  }
}
