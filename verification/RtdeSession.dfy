/** The RTDE session of a tag group (`RtdeTagGroupImpl`, `init_rtde_session`, `rtde_tag_set` and the RTDE branch of the
    read functions, oip_comms.cpp). The tags stay registered from one session to the next, and with them the flag
    that makes a tag a bit. The controller is a parameter: its answer to the names of a recipe. */
module RtdeSession {
  import opened Bytes
  import opened Powers
  import opened RtdeNumbers
  import opened RtdeLayout
  import opened RtdeRecipe

  lemma ByteIsToBytes(v: nat)
    requires v < 256
    ensures ToBytes(v, 1) == [v]
  {
    assert ToBytes(v / 256, 0) == [];
  }

  /** A number of the width of the entry, high byte first. */
  method StoreNumber(e: Entry, n: nat) returns (b: seq<byte>)
    requires Width(e) in {1, 4, 8} && n < Pow(256, Width(e))
    ensures b == ToBytes(n, Width(e))
  {
    BytePowers(1);
    if Width(e) == 1 {
      ByteIsToBytes(n);
      b := [n];
    } else if Width(e) == 4 {
      Be32IsToBytes(n);
      b := Be32(n);
    } else {
      Be64IsToBytes(n);
      b := Be64(n);
    }
  }

  /** A bit of a number set or cleared. */
  method BitChanged(e: Entry, p: seq<byte>, v: Variant) returns (n: int)
    requires Fits(e, p) && ActiveBit(e)
    ensures n == NewNumber(e, p, v)
  {
    var cur := Number(p[e.offset..e.offset + ScalarSize(e.fieldType)]);
    SetOrClear(cur, e.tag.index, v.asBool);
    n := cur;
    if v.asBool && !Bit(cur, e.tag.index) {
      n := cur + Pow2(e.tag.index);
    } else if !v.asBool && Bit(cur, e.tag.index) {
      n := cur - Pow2(e.tag.index);
    }
  }

  /** The switch over the scalar type. */
  method ScalarNumber(e: Entry, p: seq<byte>, v: Variant) returns (n: int)
    requires Fits(e, p) && !e.isBit && 0 <= v.asBits < TWO_TO_THE_64
    ensures n == NewNumber(e, p, v)
  {
    ScalarWidths(e);
    match e.scalar
    case Bool => n := if v.asBool then 1 else 0;
    case Uint8 => n := v.asInt % 256;
    case Int32 => n := v.asInt % TWO_TO_THE_32;
    case Uint32 => n := v.asInt % TWO_TO_THE_32;
    case Uint64 => n := v.asInt % TWO_TO_THE_64;
    case Double => n := v.asBits;
  }

  lemma WidthOf(e: Entry)
    requires Sound(e)
    ensures Width(e) in {1, 4, 8}
  {
    if !ActiveBit(e) {
      ScalarWidths(e);
    }
  }

  lemma WrittenIs(e: Entry, p: seq<byte>, v: Variant)
    requires Fits(e, p)
    ensures Sound(e) && e.offset + Width(e) <= |p| && 0 <= NewNumber(e, p, v) < Pow(256, Width(e))
    ensures Written(e, p, v) == Put(p, e.offset, ToBytes(NewNumber(e, p, v), Width(e)))
  {
    NewNumberFits(e, p, v);
  }

  /** The payload after `rtde_tag_set`: of the branch for bits only the cases of the unsigned types store anything. */
  method Stored(e: Entry, p: seq<byte>, v: Variant) returns (q: seq<byte>)
    requires Fits(e, p) && 0 <= v.asBits < TWO_TO_THE_64
    ensures q == Written(e, p, v)
  {
    hide *;
    WrittenIs(e, p, v);
    WidthOf(e);
    FlagCases(e);
    var n;
    if e.isBit {
      if !Unsigned(e.fieldType) {
        StaleWrite(e, p, v);
        return p;
      }
      n := BitChanged(e, p, v);
    } else {
      n := ScalarNumber(e, p, v);
    }
    var b := StoreNumber(e, n);
    q := Put(p, e.offset, b);
  }

  lemma FlagCases(e: Entry)
    ensures ActiveBit(e) == (e.isBit && Unsigned(e.fieldType)) && Stale(e) == (e.isBit && !Unsigned(e.fieldType))
  {
  }

  lemma SetOrClear(v: nat, k: nat, b: bool)
    ensures WithBit(v, k, b)
         == if b && !Bit(v, k) then v + Pow2(k) else if Bit(v, k) && !b then v - Pow2(k) else v
  {
  }

  // ----- Where the tags lie -----

  function PayloadOf(e: Entry, output: seq<byte>, input: seq<byte>): seq<byte> {
    if e.tag.isInput then input else output
  }

  /** Two tags that are apart by name share no byte, and bits of one variable lie in the same bytes. */
  predicate WellApart(e: Entry, f: Entry) {
    && (ApartByName(e, f) ==> RtdeLayout.Apart(e, f))
    && (BitsOfOne(e, f) ==> e.offset == f.offset && e.fieldType == f.fieldType)
  }

  /** Every tag laid out lies in its payload, and any two of them are well apart. */
  ghost predicate AllPlaced(es: seq<Entry>, output: seq<byte>, input: seq<byte>) {
    && (forall e :: e in es && e.initialized ==> Fits(e, PayloadOf(e, output, input)))
    && (forall e, f :: e in es && f in es && e.initialized && f.initialized ==> WellApart(e, f))
  }

  lemma NonePlaced(es: seq<Entry>, output: seq<byte>, input: seq<byte>)
    requires forall e :: e in es ==> !e.initialized
    ensures AllPlaced(es, output, input)
  {
  }

  lemma RecipePlaced(es: seq<Entry>, c: Controller, tags: seq<Tag>, output: seq<byte>, input: seq<byte>)
    requires forall e :: e in es ==> InRecipe(e, c, tags)
    requires |output| == PayloadSize(c, tags, false) && |input| == PayloadSize(c, tags, true)
    ensures AllPlaced(es, output, input)
  {
    hide InRecipe, PayloadSize;
    forall e | e in es ensures Fits(e, PayloadOf(e, output, input)) {
      RecipeFits(e, c, tags, PayloadOf(e, output, input));
    }
    hide Fits;
    forall e, f | e in es && f in es ensures WellApart(e, f) {
      RecipeApart(e, f, c, tags);
    }
  }

  lemma PayloadSizes(c: Controller, tags: seq<Tag>)
    ensures PayloadSize(c, tags, false) == TotalSize(TypesOf(c, tags, false))
    ensures PayloadSize(c, tags, true) == TotalSize(TypesOf(c, tags, true))
  {
  }

  lemma PlacedFits(es: seq<Entry>, output: seq<byte>, input: seq<byte>, e: Entry)
    requires AllPlaced(es, output, input) && e in es && e.initialized && e.tag.isInput
    ensures Fits(e, input)
  {
    hide Fits, WellApart;
  }

  lemma PlacedApart(es: seq<Entry>, output: seq<byte>, input: seq<byte>, e: Entry, f: Entry)
    requires AllPlaced(es, output, input) && e in es && f in es && e.initialized && f.initialized
    requires SharesNothing(e, f)
    ensures RtdeLayout.Apart(e, f) || OtherBit(e, f) || Stale(e) || Stale(f)
  {
    hide Fits;
    assert WellApart(e, f);
  }

  lemma PlacedSame(es: seq<Entry>, output: seq<byte>, p: seq<byte>, q: seq<byte>)
    requires AllPlaced(es, output, p) && |q| == |p|
    ensures AllPlaced(es, output, q)
  {
    hide WellApart, Sound, Width;
  }

  class Session {
    var entries: seq<Entry>
    var outputPayload: seq<byte>
    var inputPayload: seq<byte>
    var inputReady: bool
    var haveOutput: bool
    var started: bool
    /** The types every tag's variable has been given, in order. */
    ghost var laid: seq<seq<FieldType>>

    /** The tags laid out have their places, and the flag of every tag says what the types of all sessions made of
        it. */
    ghost predicate Valid()
      reads this
    {
      AllKept(entries, laid) && AllPlaced(entries, outputPayload, inputPayload)
    }

    lemma ValidParts()
      requires Valid()
      ensures AllKept(entries, laid) && AllPlaced(entries, outputPayload, inputPayload)
    {
    }

    lemma ValidIntro()
      requires AllKept(entries, laid) && AllPlaced(entries, outputPayload, inputPayload)
      ensures Valid()
    {
    }

    constructor ()
      ensures Valid() && !started && entries == []
    {
      entries, outputPayload, inputPayload := [], [], [];
      inputReady, haveOutput, started := false, false, false;
      laid := [];
    }

    /** `register_tag`: a new tag, at the place its name has among the others. */
    method Register(t: Tag, at: nat)
      requires Valid() && at <= |entries|
      modifies this`entries, this`laid
      ensures Valid() && entries == old(entries[..at] + [Fresh(t)] + entries[at..])
      ensures laid == old(laid[..at] + [[]] + laid[at..])
    {
      entries := entries[..at] + [Fresh(t)] + entries[at..];
      laid := laid[..at] + [[]] + laid[at..];
      forall i | 0 <= i < |entries| ensures Kept(entries[i], laid[i]) {
        if i < at {
          assert Kept(old(entries)[i], old(laid)[i]);
        } else if i > at {
          assert Kept(old(entries)[i - 1], old(laid)[i - 1]);
        }
      }
      hide WellApart, Fits;
      forall e | e in entries && e.initialized ensures e in old(entries) {
        assert e != Fresh(t);
      }
    }

    /** A poll has failed: the next one begins with a new session over the same tags. */
    method Lost()
      requires Valid()
      modifies this`started
      ensures Valid() && !started
    {
      started := false;
    }

    /** `init_rtde_session`, from whatever earlier sessions left. It succeeds exactly when there is an output variable,
        the controller accepts both recipes, every index suits its type and the controller starts; then every tag has
        its place. Otherwise none has, but the tags the layout got to have been given their types. */
    method Init(c: Controller, starts: bool) returns (ok: bool)
      requires Valid()
      modifies this
      ensures Valid() && started == ok && Tags(entries) == Tags(old(entries)) && !haveOutput
      ensures var tags := Tags(entries);
              ok == (RecipeOk(c, tags, false) && RecipeOk(c, tags, true) && IndicesOk(c, tags) && starts)
      ensures forall e :: e in entries ==> e.initialized == ok
      ensures var tags := Tags(entries);
              var reached := if RecipeOk(c, tags, false) && RecipeOk(c, tags, true) then Reached(c, tags, 0) else 0;
              Logged(c, tags, old(laid), laid, reached)
      ensures ok ==> inputReady == (Names(Tags(entries), true) != [])
      ensures ok ==> |outputPayload| == PayloadSize(c, Tags(entries), false)
                     && |inputPayload| == PayloadSize(c, Tags(entries), true)
    {
      hide *;
      ghost var tags, logs := Tags(entries), laid;
      ValidParts();
      Reset();
      BuiltStart(old(entries), logs, c);
      var outNames, inNames := Names(Tags(entries), false), Names(Tags(entries), true);
      RecipeUnfolded(c, tags, false, outNames);
      RecipeUnfolded(c, tags, true, inNames);
      BuiltParts(entries, laid, logs, c, tags, 0);
      if outNames == [] {
        return false;
      }
      var outReply := c(false, outNames);
      if !Accepted(outReply, outNames) {
        return false;
      }
      var outTypes: seq<FieldType>, inTypes: seq<FieldType> := outReply.types, [];
      if inNames != [] {
        var inReply := c(true, inNames);
        if !Accepted(inReply, inNames) {
          return false;
        }
        inTypes := inReply.types;
      }
      ok := Layout(c, outNames, inNames, outTypes, inTypes, logs);
      NonePlaced(entries, outputPayload, inputPayload);
      ValidIntro();
      if !ok || !starts {
        return false;
      }
      SetUp(c, outTypes, inTypes, inNames != [], logs);
    }

    /** Forgets the session, but neither the tags nor their flags. */
    method Reset()
      requires AllKept(entries, laid)
      modifies this
      ensures entries == Unplaced(old(entries)) && laid == old(laid) && Tags(entries) == old(Tags(entries))
      ensures AllKept(entries, laid) && Valid() && !started && !haveOutput
      ensures forall e :: e in entries ==> !e.initialized
    {
      entries := Unplaced(entries);
      outputPayload, inputPayload := [], [];
      inputReady, haveOutput, started := false, false, false;
    }

    /** The loop over the tags: each gets its type and its place, until an index is out of range. */
    method Layout(c: Controller, outNames: seq<string>, inNames: seq<string>, outTypes: seq<FieldType>,
        inTypes: seq<FieldType>, ghost logs: seq<seq<FieldType>>) returns (ok: bool)
      requires Built(entries, laid, logs, c, Tags(entries), 0)
      requires RecipeOk(c, Tags(entries), false) && RecipeOk(c, Tags(entries), true)
      requires outNames == Names(Tags(entries), false) && outTypes == TypesOf(c, Tags(entries), false)
      requires inNames == Names(Tags(entries), true) && inTypes == TypesOf(c, Tags(entries), true)
      modifies this`entries, this`laid
      ensures Tags(entries) == old(Tags(entries)) && AllKept(entries, laid)
      ensures forall e :: e in entries ==> !e.initialized
      ensures ok == IndicesOk(c, Tags(entries))
      ensures Logged(c, Tags(entries), logs, laid, Reached(c, Tags(entries), 0))
      ensures ok ==> Built(entries, laid, logs, c, Tags(entries), |entries|)
    {
      hide *;
      ghost var tags := Tags(entries);
      var i := 0;
      BuiltParts(entries, laid, logs, c, tags, i);
      while i < |entries|
        invariant i <= |entries| == |tags| && Tags(entries) == tags && Built(entries, laid, logs, c, tags, i)
        decreases |entries| - i
      {
        var e := entries[i];
        var names := if e.tag.isInput then inNames else outNames;
        var types := if e.tag.isInput then inTypes else outTypes;
        NextTag(entries, laid, logs, c, tags, i, names, types);
        BuiltParts(entries, laid, logs, c, tags, i);
        var ft := types[Position(names, e.tag.base)];
        ghost var es, ls := entries, laid;
        KeptTyped(e, laid[i], ft);
        TypedParts(e, ft);
        if !IndexOk(e.tag, ft) {
          TypedMore(es, ls, logs, c, tags, i, Typed(e, ft), ft);
          BuiltStop(es, ls, logs, c, tags, i);
          entries := entries[i := Typed(e, ft)];
          laid := laid[i := laid[i] + [ft]];
          return false;
        }
        EntryInRecipe(e, c, tags, names, types);
        EntryParts(e, names, types, ft, laid[i] + [ft]);
        TypedMore(es, ls, logs, c, tags, i, EntryOf(e, names, types), ft);
        entries := entries[i := EntryOf(e, names, types)];
        laid := laid[i := laid[i] + [ft]];
        i := i + 1;
      }
      BuiltParts(entries, laid, logs, c, tags, i);
      BuiltAll(entries, laid, logs, c, tags);
      ok := true;
    }

    /** The end of a layout: fresh payloads, and every tag is there. */
    method SetUp(c: Controller, outTypes: seq<FieldType>, inTypes: seq<FieldType>, ready: bool,
        ghost logs: seq<seq<FieldType>>)
      requires Built(entries, laid, logs, c, Tags(entries), |entries|)
      requires outTypes == TypesOf(c, Tags(entries), false) && inTypes == TypesOf(c, Tags(entries), true)
      requires AllKept(entries, laid)
      modifies this
      ensures Valid() && started && !haveOutput && inputReady == ready
      ensures Tags(entries) == old(Tags(entries)) && laid == old(laid)
      ensures forall e :: e in entries ==> e.initialized
      ensures |outputPayload| == PayloadSize(c, Tags(entries), false)
      ensures |inputPayload| == PayloadSize(c, Tags(entries), true)
    {
      hide *;
      ghost var tags := Tags(entries);
      InitializedKept(entries, laid, logs, c, tags);
      entries := Initialized(entries);
      outputPayload := seq(TotalSize(outTypes), _ => 0);
      inputPayload := seq(TotalSize(inTypes), _ => 0);
      inputReady, haveOutput, started := ready, false, true;
      PayloadSizes(c, tags);
      RecipePlaced(entries, c, tags, outputPayload, inputPayload);
      ValidIntro();
    }

    /** Every input tag laid out that shares nothing with `e` reads as it did in `p`. */
    ghost predicate OthersSame(e: Entry, p: seq<byte>)
      reads this
    {
      forall f :: f in entries && f.initialized && f.tag.isInput && SharesNothing(e, f) ==>
        Fits(f, inputPayload) && Fits(f, p) && Read(f, inputPayload) == Read(f, p)
    }

    /** Whether a write to the tag goes through: the session runs, has an input recipe, and the tag is an input that
        was laid out. */
    predicate Writable(e: Entry)
      reads this
    {
      started && inputReady && e.tag.isInput && e.initialized
    }

    /** `rtde_tag_set`: the value is read back from the tag unless the tag is stale; then nothing changes and zero is
        read. No tag that shares no bit with it changes. */
    method TagSet(i: nat, v: Variant) returns (sent: bool)
      requires Valid() && i < |entries| && 0 <= v.asBits < TWO_TO_THE_64
      modifies this`inputPayload
      ensures Valid() && sent == Writable(entries[i]) && |inputPayload| == |old(inputPayload)|
      ensures !sent ==> inputPayload == old(inputPayload)
      ensures sent ==> Fits(entries[i], inputPayload)
      ensures sent && !Stale(entries[i]) ==> Read(entries[i], inputPayload) == Cut(entries[i], v)
      ensures sent && Stale(entries[i]) ==> inputPayload == old(inputPayload)
      ensures sent && Stale(entries[i]) ==> Read(entries[i], inputPayload) == Zero(entries[i].scalar)
      ensures sent ==> OthersSame(entries[i], old(inputPayload))
    {
      var e := entries[i];
      if !started || !inputReady || !e.tag.isInput || !e.initialized {
        return false;
      }
      var p := inputPayload;
      PlacedFits(entries, outputPayload, p, e);
      inputPayload := Stored(e, p, v);
      sent := true;
      if Stale(e) {
        StaleWrite(e, p, v);
      } else {
        ReadWritten(e, p, v);
      }
      hide NewNumber, Cut, Zero, Written, Read;
      forall f | f in entries && f.initialized && f.tag.isInput && SharesNothing(e, f)
        ensures Fits(f, inputPayload) && Fits(f, p) && Read(f, inputPayload) == Read(f, p)
      {
        PlacedFits(entries, outputPayload, p, f);
        PlacedApart(entries, outputPayload, p, e, f);
        OthersKept(e, f, p, v);
      }
      PlacedSame(entries, outputPayload, p, inputPayload);
    }

    /** Whether everything written to a tag is read back can be told beforehand from the types its variable has been
        given: it is, unless an earlier session made the tag a bit and the last one did not. */
    lemma ReadBack(i: nat)
      requires Valid() && i < |entries| && i < |laid| && Writable(entries[i])
      ensures Fits(entries[i], inputPayload) && laid[i] != []
      ensures var e := entries[i];
              (forall v: Variant :: Read(e, Written(e, inputPayload, v)) == Cut(e, v))
              <==> !(WasBit(e.tag, laid[i][..|laid[i]| - 1]) && !Unsigned(e.fieldType))
    {
      var e := entries[i];
      assert e in entries && Kept(e, laid[i]);
      PlacedFits(entries, outputPayload, inputPayload, e);
      ReadBackIff(e, inputPayload);
      StaleMeaning(e, laid[i]);
    }
  }
}
