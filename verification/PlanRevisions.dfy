/**
 Which texts are plan revisions, and of which content one is made
 (packages/runner/src/execution-plans/execution-plan-json.ts).
 */
module PlanRevisions {
  import opened Wrappers
  import opened JsonText
  import opened JsonAcceptance
  import opened CanonicalJson
  import G = JsonGrammar
  import W = JsonWriting

  // ---------------------------------------------------------------- documents

  lemma LineStaysPadded(w: Text, v: Json)
    requires Padded(w, v)
    ensures Padded(w + [0x0A], v)
  {
    hide Spells;
    var x, y, z :| w == x + (y + z) && Blank(x) && Spells(y, v) && Blank(z);
    var end := z + [0x0A];
    assert w + [0x0A] == x + (y + end) && Blank(end);
  }

  /** A stored document is a line: it spells the canonical value, without room for blanks, and ends in a line feed. */
  lemma DocumentIsLine(v: Json)
    requires WellFormed(v)
    ensures
      var text := SerializePlanDocument(v);
      && |text| == |Stringify(Canonical(v))| + 1 && text[|text| - 1] == 0x0A
      && Padded(text[..|text| - 1], Canonical(v)) && Padded(text, Canonical(v))
  {
    var written := Stringify(Canonical(v));
    CanonicalIsWellFormed(v);
    W.WrittenSpells(Canonical(v));
    LineStaysPadded(written, Canonical(v));
    hide Padded, Stringify, Canonical, WellFormed;
    assert SerializePlanDocument(v)[..|written|] == written;
  }

  // ---------------------------------------------------------------- identities

  /** The id at place k. */
  predicate HasIdAt(members: seq<Member>, k: nat, id: Text) {
    k < |members| && members[k] == Member([0x69, 0x64], Str(id))
  }

  function Without(members: seq<Member>, k: nat): seq<Member>
    requires k < |members|
  {
    members[..k] + members[k + 1..]
  }

  lemma {:induction false} NoneLeftOut(members: seq<Member>, key: Text)
    requires !HasKey(members, key)
    ensures WithoutKey(members, key) == members
  {
    if members != [] {
      assert members[0] in members && forall m :: m in members[1..] ==> m in members;
      NoneLeftOut(members[1..], key);
    }
  }

  lemma {:induction false} LeavesIdOut(members: seq<Member>, k: nat, id: Text)
    requires UniqueKeys(members) && HasIdAt(members, k, id)
    ensures WithoutKey(members, ID) == Without(members, k) && IdOf(members) == Some(id)
    ensures !HasKey(Without(members, k), ID)
  {
    assert members[k] in members;
    IdOfMember(members, id);
    if k == 0 {
      forall m | m in members[1..] ensures m.key != ID {
        var i :| 0 <= i < |members[1..]| && members[1..][i] == m;
        assert members[i + 1] == m;
      }
      NoneLeftOut(members[1..], ID);
      assert Without(members, 0) == members[1..];
    } else {
      LeavesIdOut(members[1..], k - 1, id);
      assert members[1..][k - 1] == members[k];
      assert Without(members, k) == [members[0]] + Without(members[1..], k - 1);
      WithoutKeyMembers(members, ID);
    }
  }

  lemma {:induction false} IdStands(members: seq<Member>) returns (k: nat)
    requires IdOf(members).Some?
    ensures HasIdAt(members, k, IdOf(members).value)
  {
    if members[0].key == ID {
      k := 0;
    } else {
      k := IdStands(members[1..]);
      k := k + 1;
    }
  }

  // ---------------------------------------------------------------- what is accepted

  /** A revision is made of content that fits the schema and has no id of its own; its id is the content's digest. */
  lemma CreatedExactlyWhen(sha: Hash, schema: Schema, content: seq<Member>)
    ensures CreatePlanRevision(sha, schema, content).Some?
       <==> && WellFormed(Obj(content)) && schema(Obj(content))
            && forall k :: 0 <= k < |content| ==> content[k].key != [0x69, 0x64]
    ensures
      CreatePlanRevision(sha, schema, content).Some? ==>
        var revision := CreatePlanRevision(sha, schema, content).value;
        revision.content == content && revision.id == sha(CanonicalText(Obj(content)))
  {
    if HasKey(content, ID) {
      var m :| m in content && m.key == ID;
      var k :| 0 <= k < |content| && content[k] == m;
    } else {
      assert forall k :: 0 <= k < |content| ==> content[k] in content;
    }
  }

  /** The text spells an object with the id at place k and, without it, a content that fits the schema. */
  ghost predicate Holds(schema: Schema, source: Text, members: seq<Member>, k: nat, id: Text) {
    && WellFormed(Obj(members)) && Padded(source, Obj(members))
    && HasIdAt(members, k, id) && schema(Obj(Without(members, k)))
  }

  ghost predicate IsHeld(schema: Schema, source: Text, members: seq<Member>, k: nat, revision: PlanRevision) {
    && k < |members| && revision.content == Without(members, k)
    && Holds(schema, source, members, k, revision.id)
  }

  lemma ParsedHolds(sha: Hash, schema: Schema, source: Text, expectedId: Option<Text>)
      returns (members: seq<Member>, k: nat)
    requires var result := ParsePlanRevision(sha, schema, source, expectedId);
      result.Ok? || result.error == DigestMismatch
    ensures
      var result := ParsePlanRevision(sha, schema, source, expectedId);
      && k < |members| && members[k].value.Str? && Holds(schema, source, members, k, members[k].value.s)
      && (var id, digest := members[k].value.s, sha(CanonicalText(Obj(Without(members, k))));
          if id == digest && (expectedId.Some? ==> expectedId.value == digest)
          then result == Ok(PlanRevision(Without(members, k), id)) else result == Err(DigestMismatch))
  {
    members := G.Parse(source).value.members;
    k := IdStands(members);
    ParsesExactlyWhenSpelled(source, Obj(members));
    LeavesIdOut(members, k, IdOf(members).value);
    hide Padded, WellFormed, G.Parse;
  }

  lemma HoldsIsParsed(sha: Hash, schema: Schema, source: Text, expectedId: Option<Text>, members: seq<Member>, k: nat,
                      id: Text)
    requires Holds(schema, source, members, k, id)
    ensures
      var result := ParsePlanRevision(sha, schema, source, expectedId);
      var digest := sha(CanonicalText(Obj(Without(members, k))));
      if id == digest && (expectedId.Some? ==> expectedId.value == digest)
      then result == Ok(PlanRevision(Without(members, k), id)) else result == Err(DigestMismatch)
  {
    ParsesExactlyWhenSpelled(source, Obj(members));
    LeavesIdOut(members, k, id);
    WithoutKeyMembers(members, ID);
    hide Padded, G.Parse;
    assert WellFormed(Obj(Without(members, k)));
  }

  /**
   A text is accepted as a revision exactly when it spells an object that has, beside a content that
   fits the schema, the digest of that content as its id, which is also the id that is asked for.
   */
  lemma RevisionAcceptedExactlyWhen(sha: Hash, schema: Schema, source: Text, expectedId: Option<Text>,
                                    revision: PlanRevision)
    ensures ParsePlanRevision(sha, schema, source, expectedId) == Ok(revision)
       <==> && revision.id == sha(CanonicalText(Obj(revision.content)))
            && (expectedId.Some? ==> expectedId.value == revision.id)
            && exists members, k :: IsHeld(schema, source, members, k, revision)
  {
    hide Holds, Without, ParsePlanRevision;
    if ParsePlanRevision(sha, schema, source, expectedId) == Ok(revision) {
      var members, k := ParsedHolds(sha, schema, source, expectedId);
      assert IsHeld(schema, source, members, k, revision);
    }
    if members, k :| IsHeld(schema, source, members, k, revision) {
      HoldsIsParsed(sha, schema, source, expectedId, members, k, revision.id);
    }
  }

  /** Why a text is refused: it spells no value; it holds no revision; or the digest does not match. */
  lemma RevisionRefusedAs(sha: Hash, schema: Schema, source: Text, expectedId: Option<Text>)
    requires ParsePlanRevision(sha, schema, source, expectedId).Err?
    ensures
      var fault := ParsePlanRevision(sha, schema, source, expectedId).error;
      && (fault.NotJson? <==> !exists v :: WellFormed(v) && Padded(source, v))
      && (fault.DigestMismatch? <==> exists members, k, id :: Holds(schema, source, members, k, id))
  {
    forall v ensures G.Parse(source) == Ok(v) <==> WellFormed(v) && Padded(source, v) {
      ParsesExactlyWhenSpelled(source, v);
    }
    var fault := ParsePlanRevision(sha, schema, source, expectedId).error;
    assert fault.NotJson? <==> G.Parse(source).Err?;
    if G.Parse(source).Ok? {
      var v := G.Parse(source).value;
      assert WellFormed(v) && Padded(source, v);
    }
    hide Holds, ParsePlanRevision, Padded, WellFormed, G.Parse;
    if fault.DigestMismatch? {
      var members, k := ParsedHolds(sha, schema, source, expectedId);
    }
    if members, k, id :| Holds(schema, source, members, k, id) {
      HoldsIsParsed(sha, schema, source, expectedId, members, k, id);
    }
  }
}
