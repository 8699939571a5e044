/**
 The code that appends attribute values to the string pool: a tokenizer loop, and a recursion into the text of entities
 that marks each entity open while its text is being read.
 */
module AttributeStore {
  import opened XmlCharTypes
  import opened Characters
  import opened ContentScanner
  import opened CharRefs
  import opened Content
  import opened AttributeValue
  import ContentTokenizer

  lemma RoomForChar(enc: Encoding, s: seq<byte>, i: nat)
    requires i < |s| && Whole(s, i, |s|)
    ensures var j := i + CharLength(TypeOf(enc, s[i])); j <= |s| && CharEnd(enc, s, i) == j && Whole(s, j, |s|)
  {
    WholeOnce(enc, s, i, |s|);
  }

  lemma RunOnce(enc: Encoding, s: seq<byte>, i: nat)
    requires i < |s| && TypeOf(enc, s[i]) != Lt && !EndsRun(TypeOf(enc, s[i]))
    ensures ValueRun(enc, s, i) == ValueRun(enc, s, CharEnd(enc, s, i))
  {
    hide TypeOf;
  }

  /** attributeValueTok: one loop for the first character and for the run behind it. */
  method NextValueTok(enc: Encoding, s: seq<byte>, start: nat) returns (t: ValueTok)
    requires start <= |s| && Whole(s, start, |s|)
    ensures t == AttributeValueTok(enc, s, start)
  {
    hide TypeOf, Scan, Whole, CharEnd;
    if start == |s| { return ValNone; }
    var ptr := start;
    while ptr != |s|
      invariant start <= ptr <= |s| && Whole(s, ptr, |s|)
      invariant ptr > start ==> ValueRun(enc, s, ptr) == AttributeValueTok(enc, s, start)
    {
      var bt := TypeOf(enc, s[ptr]);
      RoomForChar(enc, s, ptr);
      if bt == Amp {
        if ptr == start {
          var r := ContentTokenizer.ScanRef(enc, Outside, s, ptr + 1);
          return RefTok(r);
        }
        return ValData(ptr);
      } else if bt == Lt {
        return ValInvalid;
      } else if bt == Lf {
        return if ptr == start then ValNewline(ptr + 1) else ValData(ptr);
      } else if bt == Cr {
        if ptr != start { return ValData(ptr); }
        ptr := ptr + 1;
        if ptr == |s| { return ValTrailingCr; }
        if TypeOf(enc, s[ptr]) == Lf { ptr := ptr + 1; }
        return ValNewline(ptr);
      } else if bt == S {
        return if ptr == start then ValSpace(ptr + 1) else ValData(ptr);
      } else {
        ptr := ptr + CharLength(bt);
      }
    }
    t := ValData(ptr);
  }

  datatype Outcome = NoError | Error(code: ErrorCode)

  class Store {
    const env: Env
    /** The string being built at the end of the pool. */
    var pool: seq<byte>
    var openEntities: set<Name>

    constructor (env: Env)
      ensures this.env == env && pool == [] && openEntities == {}
    {
      this.env := env;
      pool, openEntities := [], {};
    }

    /** What a run that ended this way has made of the value. */
    ghost predicate Ended(outcome: Outcome, r: ValueResult)
      reads this
    {
      r == if outcome.NoError? then Value(pool) else ValueError(outcome.code)
    }

    method AppendBlank(isCdata: bool)
      modifies this`pool
      ensures pool == Add(isCdata, old(pool), Blank)
    {
      if !isCdata && (|pool| == 0 || pool[|pool| - 1] == SPACE) { return; }
      pool := pool + [SPACE];
    }

    /** A character reference: the number, unless it is a space that a tokenized value drops. */
    method AppendCharRef(isCdata: bool, t: seq<byte>) returns (outcome: Outcome)
      requires WellFormedRef(t)
      modifies this`pool
      ensures var r := CharRefStep(t, 0);
              if r.Put? then outcome == NoError && pool == Add(isCdata, old(pool), r.piece)
              else outcome == Error(r.code) && pool == old(pool)
    {
      hide WellFormedRef, CharRefValue, Utf8Encode;
      var n := CharRefNumber(t);
      if n < 0 { return Error(BadCharRef); }
      if !isCdata && n == SPACE && (|pool| == 0 || pool[|pool| - 1] == SPACE) { return NoError; }
      var buf := Utf8Encode(n);
      SpaceEncodes();
      if |buf| == 0 { return Error(BadCharRef); }
      pool := pool + buf;
      outcome := NoError;
    }

    /** appendAttributeValue. The open flags are as before, whatever the outcome. */
    method AppendAttributeValue(internal: bool, isCdata: bool, s: seq<byte>) returns (outcome: Outcome)
      requires Whole(s, 0, |s|) && WholeEntities(env)
      modifies this
      ensures openEntities == old(openEntities)
      ensures Ended(outcome, AppendValue(env, internal, isCdata, s, 0, openEntities, old(pool)))
      decreases env.Unopened(openEntities), 1
    {
      hide AppendValue, Whole, Add, Env.Unopened, CharRefStep, EntityStep, AttributeValueTok, WellFormedRef;
      var enc := env.Enc(internal);
      var ptr := 0;
      while true
        invariant ptr <= |s| && Whole(s, ptr, |s|) && openEntities == old(openEntities)
        invariant AppendValue(env, internal, isCdata, s, ptr, openEntities, pool) ==
                  AppendValue(env, internal, isCdata, s, 0, openEntities, old(pool))
        decreases |s| - ptr
      {
        AppendOnce(env, internal, isCdata, s, ptr, openEntities, pool);
        var t := NextValueTok(enc, s, ptr);
        TokIsWhole(enc, s, ptr);
        EndIsWhole(s);
        AddMeans(isCdata, pool);
        match t
        case ValNone => return NoError;
        case ValInvalid => return Error(InvalidToken);
        case ValPartial => return Error(InvalidToken);
        case ValPartialChar => return Error(UnexpectedState);
        case ValCharRef(next) =>
          RefsAreWellFormed(enc, s, ptr);
          CharRefStepNext(s[ptr..next], next);
          outcome := AppendCharRef(isCdata, s[ptr..next]);
          if outcome.Error? { return; }
          ptr := next;
        case ValData(next) =>
          pool := pool + s[ptr..next];
          ptr := next;
        case ValTrailingCr =>
          AppendBlank(isCdata);
          ptr := ptr + 1;
        case ValNewline(next) =>
          AppendBlank(isCdata);
          ptr := next;
        case ValSpace(next) =>
          AppendBlank(isCdata);
          ptr := next;
        case ValEntityRef(next) =>
          outcome := AppendEntity(isCdata, s[ptr..next], next);
          if outcome.Error? { return; }
          ptr := next;
      }
    }

    /** A reference: a predefined entity, an error, or the text of an entity, read while it is marked open. */
    method AppendEntity(isCdata: bool, t: seq<byte>, ghost next: nat) returns (outcome: Outcome)
      requires WholeEntities(env)
      modifies this
      ensures openEntities == old(openEntities)
      ensures var r := EntityStep(env, t, openEntities, next);
              if r.Failed? then outcome == Error(r.code)
              else if r.Put? then outcome == NoError && pool == Add(isCdata, old(pool), r.piece)
              else Ended(outcome, AppendValue(env, true, isCdata, env.entities[r.name].text, 0, openEntities + {r.name}, old(pool)))
      decreases env.Unopened(openEntities), 0
    {
      hide AppendValue, Whole, Env.Unopened, PredefinedEntity;
      var name := RefNameOf(t);
      var ch := PredefinedEntity(name);
      if |ch| > 0 {
        pool := pool + ch;
        return NoError;
      }
      if name !in env.entities {
        if env.complete { return Error(UndefinedEntity); }
        assert pool + [] == pool;
        return NoError;
      }
      var entity := env.entities[name];
      if name in openEntities { return Error(RecursiveEntityRef); }
      if entity.Unparsed? { return Error(BinaryEntityRef); }
      if entity.External? { return Error(AttributeExternalEntityRef); }
      OpeningShrinks(env, openEntities, name);
      ghost var before := openEntities;
      openEntities := openEntities + {name};
      outcome := AppendAttributeValue(true, isCdata, entity.text);
      openEntities := openEntities - {name};
      assert openEntities == before;
    }

    /** storeAttributeValue, into an empty string. */
    method StoreAttributeValue(internal: bool, isCdata: bool, s: seq<byte>) returns (outcome: Outcome)
      requires Whole(s, 0, |s|) && WholeEntities(env) && pool == []
      modifies this
      ensures openEntities == old(openEntities)
      ensures Ended(outcome, StoreValue(env, internal, isCdata, s, openEntities))
    {
      hide AppendValue, Whole, Env.Unopened;
      outcome := AppendAttributeValue(internal, isCdata, s);
      if outcome == NoError && !isCdata && |pool| > 0 && pool[|pool| - 1] == SPACE {
        pool := pool[..|pool| - 1];
      }
    }
  }

  lemma CharRefStepNext(t: seq<byte>, next: nat)
    ensures var r, r' := CharRefStep(t, next), CharRefStep(t, 0);
            if r.Put? then r' == Put(r.piece, 0) && r.next == next else r' == r
  {
    hide WellFormedRef, CharRefValue, Utf8Encode;
  }

  lemma SpaceEncodes()
    ensures Utf8Encode(SPACE) == [SPACE]
  {
  }

  lemma EndIsWhole(s: seq<byte>)
    ensures Whole(s, |s|, |s|)
  {
  }

  lemma AddMeans(isCdata: bool, pool: seq<byte>)
    ensures forall bytes :: Add(isCdata, pool, Text(bytes)) == pool + bytes
  {
  }

  lemma RefsAreWellFormed(enc: Encoding, s: seq<byte>, i: nat)
    requires i < |s|
    ensures var t := AttributeValueTok(enc, s, i); t.ValCharRef? ==> WellFormedRef(s[i..t.next])
  {
    hide TypeOf, Scan, WellFormedRef, ValueRun;
    RefBody(enc, s, i + 1);
  }
}
