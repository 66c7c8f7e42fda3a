/** What a session makes of the registered tags (`init_rtde_session`, oip_comms.cpp): the names it asks for, the types
    the controller answers with, and the layout loop over the tags. The flag that makes a tag a bit of a number
    outlives the session. */
module RtdeRecipe {
  import opened Bytes
  import opened Powers
  import opened RtdeNumbers
  import opened RtdeLayout

  datatype Reply = Refused | Types(types: seq<FieldType>)

  type Controller = (bool, seq<string>) -> Reply

  /** The checks of `setup_outputs` and `setup_inputs`. */
  predicate Accepted(r: Reply, names: seq<string>) {
    r.Types? && |r.types| == |names| && forall k :: 0 <= k < |names| ==> Usable(r.types[k])
  }

  /** The variables of one direction, each once, in the order of their first tags. */
  function Names(tags: seq<Tag>, isInput: bool): (names: seq<string>)
    ensures Distinct(names)
  {
    if tags == [] then []
    else
      var ns, t := Names(tags[..|tags| - 1], isInput), tags[|tags| - 1];
      if t.isInput == isInput && t.base !in ns then ns + [t.base] else ns
  }

  lemma {:induction false} NamesHold(tags: seq<Tag>, i: nat)
    requires i < |tags|
    ensures tags[i].base in Names(tags, tags[i].isInput)
  {
    if i < |tags| - 1 {
      NamesHold(tags[..|tags| - 1], i);
    }
  }

  function Position(names: seq<string>, n: string): (k: nat)
    requires n in names
    ensures k < |names| && names[k] == n
  {
    if names[0] == n then 0 else 1 + Position(names[1..], n)
  }

  /** The types the controller gives for the variables of a direction; without variables it is not asked. */
  function TypesOf(c: Controller, tags: seq<Tag>, isInput: bool): seq<FieldType> {
    if Names(tags, isInput) == [] then []
    else
      var r := c(isInput, Names(tags, isInput));
      if r.Types? then r.types else []
  }

  /** The recipe of one direction is accepted; without inputs there is no input recipe to ask for. */
  predicate RecipeOk(c: Controller, tags: seq<Tag>, isInput: bool) {
    if isInput && Names(tags, true) == [] then true
    else Names(tags, isInput) != [] && Accepted(c(isInput, Names(tags, isInput)), Names(tags, isInput))
  }

  /** The index suits the type. */
  predicate IndexOk(t: Tag, ft: FieldType) {
    0 <= t.index < if t.brackets && Unsigned(ft) then 8 * ScalarSize(ft) else Arity(ft)
  }

  /** There is a type for the tag's variable. */
  predicate TypeKnown(c: Controller, tags: seq<Tag>, t: Tag) {
    t.base in Names(tags, t.isInput) && |TypesOf(c, tags, t.isInput)| == |Names(tags, t.isInput)|
  }

  /** The type the controller gave for the tag's variable. */
  function TagType(c: Controller, tags: seq<Tag>, t: Tag): FieldType
    requires TypeKnown(c, tags, t)
  {
    TypesOf(c, tags, t.isInput)[Position(Names(tags, t.isInput), t.base)]
  }

  /** What the layout makes of a tag whose variable has type `ft`. The flag for a bit is set here, cleared nowhere. */
  function Typed(e: Entry, ft: FieldType): Entry {
    var bit := e.tag.brackets && Unsigned(ft);
    e.(fieldType := ft, isBit := e.isBit || bit, scalar := if bit then Bool else ElementType(ft))
  }

  /** The entry of a tag whose index is in range, at its place. */
  function EntryOf(e: Entry, names: seq<string>, types: seq<FieldType>): (r: Entry)
    requires e.tag.base in names && |types| == |names| && (e.isBit ==> e.tag.brackets)
    requires IndexOk(e.tag, types[Position(names, e.tag.base)]) && Usable(types[Position(names, e.tag.base)])
    ensures r.tag == e.tag && r.initialized == e.initialized && Placed(r, names, types, Position(names, e.tag.base))
  {
    var k := Position(names, e.tag.base);
    var ft := types[k];
    Typed(e, ft).(offset := TotalSize(types[..k])
                            + if e.tag.brackets && Unsigned(ft) then 0 else e.tag.index * ScalarSize(ft))
  }

  /** Entries of one direction that share no byte by name: different variables, or different elements. */
  predicate ApartByName(e: Entry, f: Entry) {
    && e.tag.isInput == f.tag.isInput
    && (e.tag.base != f.tag.base || (!ActiveBit(e) && !ActiveBit(f) && e.tag.index != f.tag.index))
  }

  /** Two bits of one variable. */
  predicate BitsOfOne(e: Entry, f: Entry) {
    ActiveBit(e) && ActiveBit(f) && e.tag.isInput == f.tag.isInput && e.tag.base == f.tag.base
  }

  /** Different variables, different elements, or different bits of one variable; a stale tag shares nothing. */
  predicate SharesNothing(e: Entry, f: Entry) {
    ApartByName(e, f) || (BitsOfOne(e, f) && e.tag.index != f.tag.index) || Stale(e) || Stale(f)
  }

  /** The entry stands where the recipe of its direction puts its variable. */
  predicate InRecipe(e: Entry, c: Controller, tags: seq<Tag>) {
    var names := Names(tags, e.tag.isInput);
    e.tag.base in names && Placed(e, names, TypesOf(c, tags, e.tag.isInput), Position(names, e.tag.base))
  }

  /** The size of the payload of a direction. */
  function PayloadSize(c: Controller, tags: seq<Tag>, isInput: bool): nat {
    TotalSize(TypesOf(c, tags, isInput))
  }

  lemma RecipeFits(e: Entry, c: Controller, tags: seq<Tag>, p: seq<byte>)
    requires InRecipe(e, c, tags) && |p| == PayloadSize(c, tags, e.tag.isInput)
    ensures Fits(e, p)
  {
    var names := Names(tags, e.tag.isInput);
    InField(e, names, TypesOf(c, tags, e.tag.isInput), Position(names, e.tag.base));
  }

  lemma RecipeApart(e: Entry, f: Entry, c: Controller, tags: seq<Tag>)
    requires InRecipe(e, c, tags) && InRecipe(f, c, tags)
    ensures ApartByName(e, f) ==> RtdeLayout.Apart(e, f)
    ensures BitsOfOne(e, f) ==> e.offset == f.offset && e.fieldType == f.fieldType
  {
    var names, types := Names(tags, e.tag.isInput), TypesOf(c, tags, e.tag.isInput);
    if ApartByName(e, f) {
      EntriesApart(e, f, names, types, Position(names, e.tag.base), Position(names, f.tag.base));
    }
  }

  lemma RecipeTypes(c: Controller, tags: seq<Tag>, i: nat)
    requires RecipeOk(c, tags, false) && RecipeOk(c, tags, true) && i < |tags|
    ensures TypeKnown(c, tags, tags[i]) && Usable(TagType(c, tags, tags[i]))
  {
    NamesHold(tags, i);
  }

  /** The variable of the tag has a type that its index suits. */
  predicate TagOk(c: Controller, tags: seq<Tag>, t: Tag) {
    TypeKnown(c, tags, t) && IndexOk(t, TagType(c, tags, t))
  }

  /** Every index suits the type of its variable. */
  predicate IndicesOk(c: Controller, tags: seq<Tag>) {
    forall t :: t in tags ==> TagOk(c, tags, t)
  }

  // ----- What a tag was in the sessions so far -----

  /** One of the types given to the variable makes the tag a bit. */
  predicate WasBit(t: Tag, types: seq<FieldType>) {
    t.brackets && exists k :: 0 <= k < |types| && Unsigned(types[k])
  }

  /** The flag says what the types of all layouts say; the last of them is the type now. */
  ghost predicate Kept(e: Entry, types: seq<FieldType>) {
    && e.isBit == WasBit(e.tag, types)
    && (types != [] ==> e.fieldType == types[|types| - 1])
    && (e.initialized ==> types != [])
  }

  lemma KeptTyped(e: Entry, types: seq<FieldType>, ft: FieldType)
    requires Kept(e, types)
    ensures Kept(Typed(e, ft), types + [ft])
  {
    var ts := types + [ft];
    if WasBit(e.tag, types) {
      var k :| 0 <= k < |types| && Unsigned(types[k]);
      assert ts[k] == types[k];
    }
    assert ts[|types|] == ft;
  }

  /** A tag is stale exactly when an earlier layout made it a bit and the last one did not. */
  lemma StaleMeaning(e: Entry, types: seq<FieldType>)
    requires Kept(e, types) && types != []
    ensures Stale(e) <==> WasBit(e.tag, types[..|types| - 1]) && !Unsigned(e.fieldType)
  {
    var last := |types| - 1;
    var before := types[..last];
    if Stale(e) {
      var k :| 0 <= k < |types| && Unsigned(types[k]);
      assert k < last && before[k] == types[k];
    } else if WasBit(e.tag, before) {
      var k :| 0 <= k < |before| && Unsigned(before[k]);
      assert types[k] == before[k];
    }
  }

  // ----- The layout loop -----

  function Tags(es: seq<Entry>): (tags: seq<Tag>)
    ensures |tags| == |es| && forall i :: 0 <= i < |es| ==> tags[i] == es[i].tag
  {
    seq(|es|, i requires 0 <= i < |es| => es[i].tag)
  }

  function Fresh(t: Tag): Entry {
    Entry(t, Unknown, false, Unknown, 0, false)
  }

  /** The reset before a new session. */
  function Unplaced(es: seq<Entry>): (rs: seq<Entry>)
    ensures |rs| == |es| && forall i :: 0 <= i < |es| ==> rs[i] == es[i].(initialized := false, offset := 0)
  {
    seq(|es|, i requires 0 <= i < |es| => es[i].(initialized := false, offset := 0))
  }

  /** How many tags the layout loop gets to: all, or up to the first whose index does not suit its type. */
  function Reached(c: Controller, tags: seq<Tag>, i: nat): (n: nat)
    requires i <= |tags|
    ensures i <= n <= |tags|
    decreases |tags| - i
  {
    if i == |tags| then i else if !TagOk(c, tags, tags[i]) then i + 1 else Reached(c, tags, i + 1)
  }

  lemma {:induction false} ReachedAll(c: Controller, tags: seq<Tag>, i: nat)
    requires i <= |tags| && forall k :: i <= k < |tags| ==> TagOk(c, tags, tags[k])
    ensures Reached(c, tags, i) == |tags|
    decreases |tags| - i
  {
    hide TagOk;
    if i < |tags| {
      ReachedAll(c, tags, i + 1);
    }
  }

  lemma {:induction false} ReachedStop(c: Controller, tags: seq<Tag>, i: nat, n: nat)
    requires i <= n < |tags| && (forall k :: i <= k < n ==> TagOk(c, tags, tags[k])) && !TagOk(c, tags, tags[n])
    ensures Reached(c, tags, i) == n + 1
    decreases n - i
  {
    hide TagOk;
    if i < n {
      ReachedStop(c, tags, i + 1, n);
    }
  }

  /** The types given to the tags so far, with those of this layout for the first `n` tags. */
  ghost predicate Logged(c: Controller, tags: seq<Tag>, old0: seq<seq<FieldType>>, new0: seq<seq<FieldType>>, n: nat) {
    && |old0| == |new0| == |tags| && n <= |tags|
    && forall i :: 0 <= i < |tags| ==>
         if i < n then TypeKnown(c, tags, tags[i]) && new0[i] == old0[i] + [TagType(c, tags, tags[i])]
         else new0[i] == old0[i]
  }

  ghost predicate AllKept(es: seq<Entry>, logs: seq<seq<FieldType>>) {
    |es| == |logs| && forall i :: 0 <= i < |es| ==> Kept(es[i], logs[i])
  }

  /** The first `i` tags have their places. */
  ghost predicate Built(es: seq<Entry>, logs: seq<seq<FieldType>>, old0: seq<seq<FieldType>>, c: Controller,
      tags: seq<Tag>, i: nat)
  {
    && Tags(es) == tags && AllKept(es, logs) && Logged(c, tags, old0, logs, i)
    && (forall j :: 0 <= j < |es| ==> !es[j].initialized)
    && forall j :: 0 <= j < i ==> InRecipe(es[j], c, tags) && TagOk(c, tags, tags[j])
  }

  lemma BuiltStart(es: seq<Entry>, logs: seq<seq<FieldType>>, c: Controller)
    requires AllKept(es, logs)
    ensures Built(Unplaced(es), logs, logs, c, Tags(es), 0)
  {
  }

  lemma EntryInRecipe(e: Entry, c: Controller, tags: seq<Tag>, names: seq<string>, types: seq<FieldType>)
    requires names == Names(tags, e.tag.isInput) && types == TypesOf(c, tags, e.tag.isInput)
    requires e.tag.base in names && |types| == |names| && Usable(types[Position(names, e.tag.base)])
    requires e.isBit ==> e.tag.brackets
    ensures TagOk(c, tags, e.tag) == IndexOk(e.tag, types[Position(names, e.tag.base)])
    ensures TagOk(c, tags, e.tag) ==> InRecipe(EntryOf(e, names, types), c, tags)
  {
    hide Names, TypesOf, Placed, IndexOk, EntryOf;
  }

  lemma TypeOfTag(c: Controller, tags: seq<Tag>, t: Tag)
    requires TypeKnown(c, tags, t)
    ensures t.base in Names(tags, t.isInput) && |TypesOf(c, tags, t.isInput)| == |Names(tags, t.isInput)|
    ensures TagType(c, tags, t) == TypesOf(c, tags, t.isInput)[Position(Names(tags, t.isInput), t.base)]
  {
  }

  /** The parts of the next step: the tag has a type, and a flag only if it has brackets. */
  lemma NextTag(es: seq<Entry>, logs: seq<seq<FieldType>>, old0: seq<seq<FieldType>>, c: Controller, tags: seq<Tag>,
      i: nat, names: seq<string>, types: seq<FieldType>)
    requires Built(es, logs, old0, c, tags, i) && i < |tags| && RecipeOk(c, tags, false) && RecipeOk(c, tags, true)
    requires names == Names(tags, tags[i].isInput) && types == TypesOf(c, tags, tags[i].isInput)
    ensures |es| == |logs| == |tags| && es[i].tag == tags[i] && (es[i].isBit ==> es[i].tag.brackets)
    ensures tags[i].base in names && |types| == |names| && TypeKnown(c, tags, tags[i])
    ensures TagType(c, tags, tags[i]) == types[Position(names, tags[i].base)]
    ensures Usable(types[Position(names, tags[i].base)])
    ensures TagOk(c, tags, tags[i]) == IndexOk(tags[i], types[Position(names, tags[i].base)])
  {
    RecipeTypes(c, tags, i);
    TypeOfTag(c, tags, tags[i]);
    hide Names, TypesOf, RecipeOk, InRecipe, IndexOk, TagType, Usable, TypeKnown, Logged;
    assert Kept(es[i], logs[i]);
    EntryInRecipe(es[i], c, tags, names, types);
  }

  /** One tag more is typed; it gets its place if its index suits the type. */
  lemma TypedMore(es: seq<Entry>, logs: seq<seq<FieldType>>, old0: seq<seq<FieldType>>, c: Controller, tags: seq<Tag>,
      i: nat, e: Entry, ft: FieldType)
    requires Built(es, logs, old0, c, tags, i) && i < |tags| == |es| == |logs|
    requires TypeKnown(c, tags, tags[i]) && ft == TagType(c, tags, tags[i])
    requires Kept(e, logs[i] + [ft]) && e.tag == es[i].tag && !e.initialized
    ensures var es2, logs2 := es[i := e], logs[i := logs[i] + [ft]];
            && Tags(es2) == tags && AllKept(es2, logs2) && Logged(c, tags, old0, logs2, i + 1)
            && (forall j :: 0 <= j < |es2| ==> !es2[j].initialized)
            && (InRecipe(e, c, tags) && TagOk(c, tags, tags[i]) ==> Built(es2, logs2, old0, c, tags, i + 1))
  {
    hide InRecipe, TagOk, Kept, TypeKnown, TagType;
    assert Tags(es[i := e]) == tags;
  }

  lemma BuiltAll(es: seq<Entry>, logs: seq<seq<FieldType>>, old0: seq<seq<FieldType>>, c: Controller, tags: seq<Tag>)
    requires Built(es, logs, old0, c, tags, |tags|)
    ensures IndicesOk(c, tags) && Reached(c, tags, 0) == |tags|
  {
    hide TagOk, InRecipe;
    forall t | t in tags ensures TagOk(c, tags, t) {
      var k :| 0 <= k < |tags| && tags[k] == t;
    }
    ReachedAll(c, tags, 0);
  }

  lemma BuiltStop(es: seq<Entry>, logs: seq<seq<FieldType>>, old0: seq<seq<FieldType>>, c: Controller, tags: seq<Tag>,
      n: nat)
    requires Built(es, logs, old0, c, tags, n) && n < |tags| && !TagOk(c, tags, tags[n])
    ensures !IndicesOk(c, tags) && Reached(c, tags, 0) == n + 1
  {
    hide TagOk, InRecipe;
    ReachedStop(c, tags, 0, n);
  }

  lemma BuiltParts(es: seq<Entry>, logs: seq<seq<FieldType>>, old0: seq<seq<FieldType>>, c: Controller, tags: seq<Tag>,
      i: nat)
    requires Built(es, logs, old0, c, tags, i)
    ensures Tags(es) == tags && |es| == |logs| == |tags| && AllKept(es, logs) && Logged(c, tags, old0, logs, i)
    ensures forall j :: 0 <= j < |es| ==> Kept(es[j], logs[j]) && !es[j].initialized
  {
  }

  lemma TypedParts(e: Entry, ft: FieldType)
    ensures Typed(e, ft).tag == e.tag && Typed(e, ft).initialized == e.initialized
  {
  }

  lemma EntryParts(e: Entry, names: seq<string>, types: seq<FieldType>, ft: FieldType, log: seq<FieldType>)
    requires e.tag.base in names && |types| == |names| && (e.isBit ==> e.tag.brackets)
    requires ft == types[Position(names, e.tag.base)] && IndexOk(e.tag, ft) && Usable(ft)
    requires Kept(Typed(e, ft), log)
    ensures EntryOf(e, names, types).tag == e.tag && EntryOf(e, names, types).initialized == e.initialized
    ensures Kept(EntryOf(e, names, types), log)
  {
  }

  /** All tags are there. */
  function Initialized(es: seq<Entry>): (rs: seq<Entry>)
    ensures |rs| == |es| && forall i :: 0 <= i < |es| ==> rs[i] == es[i].(initialized := true)
  {
    seq(|es|, i requires 0 <= i < |es| => es[i].(initialized := true))
  }

  lemma InitializedKept(es: seq<Entry>, logs: seq<seq<FieldType>>, old0: seq<seq<FieldType>>, c: Controller,
      tags: seq<Tag>)
    requires Built(es, logs, old0, c, tags, |es|)
    ensures AllKept(Initialized(es), logs) && Tags(Initialized(es)) == tags
    ensures forall e :: e in Initialized(es) ==> InRecipe(e, c, tags)
  {
    hide InRecipe, TagOk, TypeKnown, WasBit, TagType;
    var rs := Initialized(es);
    forall j | 0 <= j < |es| ensures Kept(rs[j], logs[j]) {
      assert Kept(es[j], logs[j]);
      assert logs[j] == old0[j] + [TagType(c, tags, tags[j])];
    }
    forall j | 0 <= j < |es| ensures InRecipe(rs[j], c, tags) {
      SameRecipe(es[j], c, tags);
    }
  }

  lemma SameRecipe(e: Entry, c: Controller, tags: seq<Tag>)
    requires InRecipe(e, c, tags)
    ensures InRecipe(e.(initialized := true), c, tags)
  {
  }

  lemma RecipeUnfolded(c: Controller, tags: seq<Tag>, isInput: bool, names: seq<string>)
    requires names == Names(tags, isInput)
    ensures names == [] ==> RecipeOk(c, tags, isInput) == isInput && TypesOf(c, tags, isInput) == []
    ensures names != [] ==> RecipeOk(c, tags, isInput) == Accepted(c(isInput, names), names)
    ensures names != [] && c(isInput, names).Types? ==> TypesOf(c, tags, isInput) == c(isInput, names).types
    ensures Accepted(c(isInput, names), names) ==> c(isInput, names).Types?
  {
  }

  // ----- An input that goes wrong -----

  /** A controller that gives every output variable one type and every input variable another. */
  function AllOf(output: FieldType, input: FieldType): Controller {
    (isInput: bool, names: seq<string>) => Types(seq(|names|, _ => if isInput then input else output))
  }

  const STALE_TAG: Tag := Tag("input_int_register_0", 0, true, true)
  const STALE_TAGS: seq<Tag> := [Tag("timestamp", 0, false, false), STALE_TAG]

  lemma StaleNames()
    ensures Names(STALE_TAGS, true) == ["input_int_register_0"] && Names(STALE_TAGS, false) == ["timestamp"]
  {
    assert STALE_TAGS[..1] == [Tag("timestamp", 0, false, false)] && STALE_TAGS[..1][..0] == [];
    assert Names(STALE_TAGS[..1], true) == [] && Names(STALE_TAGS[..1], false) == ["timestamp"];
  }

  /** One variable asked for, one type given. */
  lemma OneVariable(output: FieldType, input: FieldType, tags: seq<Tag>, isInput: bool, name: string)
    requires Names(tags, isInput) == [name] && Usable(output) && Usable(input)
    ensures var c := AllOf(output, input);
      RecipeOk(c, tags, isInput) && TypesOf(c, tags, isInput) == [if isInput then input else output]
  {
    hide Names;
  }

  lemma OnlyTag(c: Controller, tags: seq<Tag>, t: Tag, ft: FieldType)
    requires Names(tags, t.isInput) == [t.base] && TypesOf(c, tags, t.isInput) == [ft] && t.index == 0 && Usable(ft)
    ensures TypeKnown(c, tags, t) && TagType(c, tags, t) == ft && TagOk(c, tags, t)
  {
    hide Names, TypesOf;
    assert Position([t.base], t.base) == 0;
  }

  /** Any such controller accepts these two tags, if it gives usable types that index 0 suits. */
  lemma StaleTagsAccepted(output: FieldType, input: FieldType)
    requires Usable(output) && Usable(input)
    ensures var c := AllOf(output, input);
            && RecipeOk(c, STALE_TAGS, false) && RecipeOk(c, STALE_TAGS, true) && IndicesOk(c, STALE_TAGS)
            && TypeKnown(c, STALE_TAGS, STALE_TAG) && TagType(c, STALE_TAGS, STALE_TAG) == input
  {
    var c := AllOf(output, input);
    StaleNames();
    hide Names, RecipeOk, TypesOf, TypeKnown, TagType, TagOk, AllOf;
    OneVariable(output, input, STALE_TAGS, true, "input_int_register_0");
    OneVariable(output, input, STALE_TAGS, false, "timestamp");
    OnlyTag(c, STALE_TAGS, STALE_TAG, input);
    OnlyTag(c, STALE_TAGS, STALE_TAGS[0], output);
  }

  /** The controller types the register UINT32, the connection is lost, and the next answer is INT32. Both sessions
      start, but no write to the tag stores anything, and 5 is read back as 0. */
  lemma StaleInput(e: Entry, p: seq<byte>, v: Variant)
    requires e.tag == STALE_TAG && Kept(e, [Uint32, Int32]) && Fits(e, p)
    ensures Stale(e) && Written(e, p, v) == p && Read(e, Written(e, p, v)) == Integer(0)
    ensures Cut(e, Variant(true, 5, 0)) == Integer(5)
  {
    assert Unsigned([Uint32, Int32][0]);
    StaleWrite(e, p, v);
  }

  /** Such an entry is what the two layouts make of the tag. */
  lemma StaleReached()
    ensures var types := [Uint32, Int32];
            var e := Typed(Typed(Fresh(STALE_TAG), types[0]), types[1]);
            Kept(e, types) && Fits(e, [0, 0, 0, 0])
  {
    KeptTyped(Fresh(STALE_TAG), [], Uint32);
    assert [] + [Uint32] == [Uint32] && [Uint32] + [Int32] == [Uint32, Int32];
    KeptTyped(Typed(Fresh(STALE_TAG), Uint32), [Uint32], Int32);
  }

  /** The indices that suit a type: the bits of an unsigned number, the elements of a vector, 0 otherwise. */
  lemma IndexLaw(t: Tag)
    ensures t.brackets ==> (IndexOk(t, Uint8) <==> 0 <= t.index < 8) && (IndexOk(t, Uint32) <==> 0 <= t.index < 32)
    ensures t.brackets ==> (IndexOk(t, Uint64) <==> 0 <= t.index < 64)
    ensures !t.brackets ==> forall ft :: ft in {Uint8, Uint32, Uint64} ==> (IndexOk(t, ft) <==> t.index == 0)
    ensures forall ft :: ft in {FieldType.Bool, Int32, Double} ==> (IndexOk(t, ft) <==> t.index == 0)
    ensures IndexOk(t, Vector3D) <==> 0 <= t.index < 3
    ensures forall ft :: ft in {Vector6D, Vector6Int32, Vector6Uint32} ==> (IndexOk(t, ft) <==> 0 <= t.index < 6)
  {
  }

  /** A recipe is refused for one name the controller does not know, lends to another client or answers with a type
      the client does not know, and for an answer of the wrong length. */
  lemma AcceptedLaw(types: seq<FieldType>, names: seq<string>)
    ensures !Accepted(Refused, names)
    ensures Accepted(Types(types), names)
       <==> |types| == |names| && NotFound !in types && InUse !in types && Unknown !in types
  {
  }

  // ----- The order of the names -----

  lemma {:induction false} NamesGrow(tags: seq<Tag>, n: nat, isInput: bool)
    requires n <= |tags|
    ensures Names(tags[..n], isInput) <= Names(tags, isInput)
    decreases |tags|
  {
    if n < |tags| {
      NamesGrow(tags[..|tags| - 1], n, isInput);
      assert tags[..|tags| - 1][..n] == tags[..n];
    } else {
      assert tags[..n] == tags;
    }
  }

  lemma {:induction false} NamesOfTags(tags: seq<Tag>, isInput: bool, name: string)
    requires name in Names(tags, isInput)
    ensures exists i :: 0 <= i < |tags| && tags[i].isInput == isInput && tags[i].base == name
  {
    var last := |tags| - 1;
    if name in Names(tags[..last], isInput) {
      NamesOfTags(tags[..last], isInput, name);
      var i :| 0 <= i < last && tags[..last][i].isInput == isInput && tags[..last][i].base == name;
      assert tags[i].isInput == isInput && tags[i].base == name;
    } else {
      assert tags[last].isInput == isInput && tags[last].base == name;
    }
  }

  /** A variable first named after another one stands after it in the recipe. */
  lemma NamesInOrder(tags: seq<Tag>, i: nat, j: nat)
    requires i < j < |tags| && tags[i].isInput == tags[j].isInput
    requires forall k :: 0 <= k <= i && tags[k].isInput == tags[j].isInput ==> tags[k].base != tags[j].base
    ensures var names := Names(tags, tags[i].isInput);
      && tags[i].base in names && tags[j].base in names
      && Position(names, tags[i].base) < Position(names, tags[j].base)
  {
    var d := tags[i].isInput;
    var names, early := Names(tags, d), Names(tags[..i + 1], d);
    NamesHold(tags, i);
    NamesHold(tags, j);
    NamesHold(tags[..i + 1], i);
    NamesGrow(tags, i + 1, d);
    hide Names, Position, Distinct;
    NotAmong(tags[..i + 1], d, tags[j].base);
    PrefixOrder(early, names, tags[i].base, tags[j].base);
  }

  lemma PrefixOrder(early: seq<string>, names: seq<string>, x: string, y: string)
    requires early <= names && Distinct(names) && x in early && y !in early && y in names
    ensures x in names && Position(names, x) < Position(names, y)
  {
    hide Position;
    var r := Position(early, x);
    assert names[r] == early[r] == x;
    assert forall k :: 0 <= k < |early| ==> names[k] == early[k] != y;
  }

  lemma NotAmong(tags: seq<Tag>, isInput: bool, name: string)
    requires forall k :: 0 <= k < |tags| && tags[k].isInput == isInput ==> tags[k].base != name
    ensures name !in Names(tags, isInput)
  {
    hide Names;
    if name in Names(tags, isInput) {
      NamesOfTags(tags, isInput, name);
    }
  }
}
