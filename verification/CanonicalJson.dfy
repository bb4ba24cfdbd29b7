/**
 Canonical JSON and what is stored under it: canonicalJson, planDigest and the plan revision
 documents of packages/runner/src/execution-plans/execution-plan-json.ts.

 Members are listed in the order in which JavaScript enumerates the sorted object: array
 indexes first, by value, and then the other keys by code unit.
 */
module CanonicalJson {
  import opened Wrappers
  import opened JsonText
  import G = JsonGrammar
  import RoundTrip = JsonRoundTrip

  // ---------------------------------------------------------------- the key order

  const MAX_ARRAY_INDEX: nat := 0xFFFF_FFFE

  /** Decimal digits without a leading zero. */
  predicate IsDecimal(key: Text) {
    key != [] && (forall i :: 0 <= i < |key| ==> IsDigit(key[i])) && (key[0] == 0x30 ==> |key| == 1)
  }

  predicate IsArrayIndex(key: Text) {
    IsDecimal(key) && NatValue(key) <= MAX_ARRAY_INDEX
  }

  predicate LexBefore(a: Text, b: Text) {
    if b == [] then false
    else if a == [] then true
    else if a[0] != b[0] then a[0] < b[0]
    else LexBefore(a[1..], b[1..])
  }

  predicate KeyBefore(a: Text, b: Text) {
    if IsArrayIndex(a) then !IsArrayIndex(b) || NatValue(a) < NatValue(b)
    else !IsArrayIndex(b) && LexBefore(a, b)
  }

  lemma {:induction false} DecimalIsWritten(key: Text)
    requires IsDecimal(key)
    ensures WriteNat(NatValue(key)) == key
    decreases |key|
  {
    var n := |key| - 1;
    var last := key[n];
    assert IsDigit(last);
    if n == 0 {
      assert key[..0] == [] && key == [last];
    } else {
      var prefix := key[..n];
      DecimalIsWritten(prefix);
      assert prefix[0] == key[0] && IsDigit(key[0]);
      var zero: Text := [0x30];
      assert WriteNat(0) == zero;
      assert NatValue(key) / 10 == NatValue(prefix) && NatValue(key) % 10 == last - 0x30;
      assert key == prefix + [last];
    }
  }

  lemma {:induction false} LexOrder(a: Text, b: Text, c: Text)
    ensures !LexBefore(a, a)
    ensures a == b || LexBefore(a, b) || LexBefore(b, a)
    ensures LexBefore(a, b) && LexBefore(b, c) ==> LexBefore(a, c)
    decreases |a|
  {
    if a != [] {
      var b', c' := if b == [] then b else b[1..], if c == [] then c else c[1..];
      LexOrder(a[1..], b', c');
      if b != [] && a[0] == b[0] && a[1..] == b[1..] {
        assert a == [a[0]] + a[1..] && b == [b[0]] + b[1..];
      }
    }
  }

  /** The key order is a strict total order. */
  lemma KeyOrder(a: Text, b: Text, c: Text)
    ensures !KeyBefore(a, a)
    ensures a == b || KeyBefore(a, b) || KeyBefore(b, a)
    ensures KeyBefore(a, b) && KeyBefore(b, c) ==> KeyBefore(a, c)
  {
    LexOrder(a, b, c);
    if IsArrayIndex(a) && IsArrayIndex(b) {
      DecimalIsWritten(a);
      DecimalIsWritten(b);
    }
  }

  // ---------------------------------------------------------------- canonical values

  function InsertMember(m: Member, ms: seq<Member>): seq<Member> {
    if ms == [] then [m]
    else if KeyBefore(m.key, ms[0].key) then [m] + ms
    else [ms[0]] + InsertMember(m, ms[1..])
  }

  function SortMembers(ms: seq<Member>): seq<Member> {
    if ms == [] then [] else InsertMember(ms[0], SortMembers(ms[1..]))
  }

  /** jsonValue: the value rebuilt with every object's keys in order. */
  function Canonical(v: Json): Json
    decreases v
  {
    match v
    case Arr(items) => Arr(CanonicalItems(items))
    case Obj(members) => Obj(SortMembers(CanonicalMembers(members)))
    case _ => v
  }

  function CanonicalItems(items: seq<Json>): (r: seq<Json>)
    ensures |r| == |items| && forall i :: 0 <= i < |r| ==> r[i] == Canonical(items[i])
    decreases items
  {
    if items == [] then [] else [Canonical(items[0])] + CanonicalItems(items[1..])
  }

  function CanonicalMembers(members: seq<Member>): (r: seq<Member>)
    ensures |r| == |members|
    ensures forall i :: 0 <= i < |r| ==> r[i] == Member(members[i].key, Canonical(members[i].value))
    decreases members
  {
    if members == [] then []
    else [Member(members[0].key, Canonical(members[0].value))] + CanonicalMembers(members[1..])
  }

  /** What canonicalJson writes of a well-formed value; it refuses a value that holds an unsafe integer. */
  function CanonicalText(v: Json): Text {
    Stringify(Canonical(v))
  }

  /** The reference meaning of equality: the same data, whatever order the keys are in. */
  predicate SameValue(v: Json, w: Json)
    decreases v
  {
    match v
    case Arr(items) =>
      w.Arr? && |items| == |w.items| && forall i | 0 <= i < |items| :: SameValue(items[i], w.items[i])
    case Obj(members) =>
      w.Obj? && |members| == |w.members|
      && forall i | 0 <= i < |members| ::
           exists j :: 0 <= j < |w.members| && members[i].key == w.members[j].key
                    && SameValue(members[i].value, w.members[j].value)
    case _ => v == w
  }

  // ---------------------------------------------------------------- sorting

  ghost predicate Ordered(ms: seq<Member>) {
    forall i, j :: 0 <= i < j < |ms| ==> KeyBefore(ms[i].key, ms[j].key)
  }

  ghost predicate SameMembers(ms: seq<Member>, ns: seq<Member>) {
    forall m :: m in ms <==> m in ns
  }

  lemma {:induction false} InsertKeepsMembers(m: Member, ms: seq<Member>)
    ensures SameMembers(InsertMember(m, ms), [m] + ms)
    ensures |InsertMember(m, ms)| == |ms| + 1
  {
    if ms != [] && !KeyBefore(m.key, ms[0].key) {
      InsertKeepsMembers(m, ms[1..]);
      assert ms == [ms[0]] + ms[1..];
    }
  }

  lemma {:induction false} InsertKeepsOrder(m: Member, ms: seq<Member>)
    requires Ordered(ms) && forall i :: 0 <= i < |ms| ==> ms[i].key != m.key
    ensures Ordered(InsertMember(m, ms))
  {
    if ms != [] {
      KeyOrder(m.key, ms[0].key, m.key);
      if KeyBefore(m.key, ms[0].key) {
        forall j | 0 <= j < |ms| ensures KeyBefore(m.key, ms[j].key) {
          KeyOrder(m.key, ms[0].key, ms[j].key);
        }
      } else {
        InsertKeepsOrder(m, ms[1..]);
        InsertKeepsMembers(m, ms[1..]);
        var rest := InsertMember(m, ms[1..]);
        forall j | 0 <= j < |rest| ensures KeyBefore(ms[0].key, rest[j].key) {
          assert rest[j] in rest;
          assert rest[j] == m || rest[j] in ms[1..];
        }
      }
    }
  }

  lemma {:induction false} SortKeepsMembers(ms: seq<Member>)
    ensures SameMembers(SortMembers(ms), ms) && |SortMembers(ms)| == |ms|
  {
    if ms != [] {
      SortKeepsMembers(ms[1..]);
      InsertKeepsMembers(ms[0], SortMembers(ms[1..]));
      assert ms == [ms[0]] + ms[1..];
    }
  }

  lemma {:induction false} SortOrders(ms: seq<Member>)
    requires UniqueKeys(ms)
    ensures Ordered(SortMembers(ms))
  {
    if ms != [] {
      SortOrders(ms[1..]);
      SortKeepsMembers(ms[1..]);
      var rest := SortMembers(ms[1..]);
      forall i | 0 <= i < |rest| ensures rest[i].key != ms[0].key {
        assert rest[i] in rest;
        assert rest[i] in ms[1..];
      }
      InsertKeepsOrder(ms[0], rest);
    }
  }

  lemma OrderedIsUnique(ms: seq<Member>)
    requires Ordered(ms)
    ensures UniqueKeys(ms)
  {
    forall i, j | 0 <= i < j < |ms| ensures ms[i].key != ms[j].key {
      KeyOrder(ms[i].key, ms[j].key, ms[i].key);
    }
  }

  lemma FirstOfOrdered(ms: seq<Member>, ns: seq<Member>)
    requires ms != [] && Ordered(ms) && Ordered(ns) && SameMembers(ms, ns)
    ensures ns != [] && ms[0] == ns[0]
  {
    assert ms[0] in ns;
    var j :| 0 <= j < |ns| && ns[j] == ms[0];
    assert ns[0] in ms;
    var i :| 0 <= i < |ms| && ms[i] == ns[0];
    if i > 0 && j > 0 {
      KeyOrder(ms[0].key, ns[0].key, ms[0].key);
      assert false;
    }
  }

  /** There is one way to put a set of members in order. */
  lemma {:induction false} OrderIsUnique(ms: seq<Member>, ns: seq<Member>)
    requires Ordered(ms) && Ordered(ns) && SameMembers(ms, ns)
    ensures ms == ns
    decreases |ms|
  {
    OrderedIsUnique(ms);
    OrderedIsUnique(ns);
    if ms == [] {
      SizeOfUnique(ns);
      assert (set m | m in ns) == {};
    } else {
      FirstOfOrdered(ms, ns);
      forall m ensures m in ms[1..] <==> m in ns[1..] {
        TailOfUnique(ms, m);
        TailOfUnique(ns, m);
      }
      OrderIsUnique(ms[1..], ns[1..]);
      assert ms == [ms[0]] + ms[1..] && ns == [ns[0]] + ns[1..];
    }
  }

  lemma TailOfUnique(ms: seq<Member>, m: Member)
    requires ms != [] && UniqueKeys(ms)
    ensures m in ms[1..] <==> m in ms && m != ms[0]
  {
    assert ms == [ms[0]] + ms[1..];
    if m in ms[1..] {
      var i :| 0 <= i < |ms[1..]| && ms[1..][i] == m;
      assert ms[i + 1] == m && ms[0].key != ms[i + 1].key;
    }
  }

  // ---------------------------------------------------------------- canonical text identifies values

  lemma {:induction false} CanonicalIsWellFormed(v: Json)
    requires WellFormed(v)
    ensures WellFormed(Canonical(v))
    decreases v
  {
    match v
    case Arr(items) =>
      forall x | x in CanonicalItems(items) ensures WellFormed(x) {
        var i :| 0 <= i < |items| && CanonicalItems(items)[i] == x;
        CanonicalIsWellFormed(items[i]);
      }
    case Obj(members) =>
      var ms := CanonicalMembers(members);
      SortOrders(ms);
      SortKeepsMembers(ms);
      OrderedIsUnique(SortMembers(ms));
      forall m | m in SortMembers(ms) ensures WellFormed(m.value) {
        var i :| 0 <= i < |ms| && ms[i] == m;
        CanonicalIsWellFormed(members[i].value);
      }
    case _ =>
  }

  lemma {:induction false} SameValueCanonical(v: Json, w: Json)
    requires WellFormed(v) && WellFormed(w) && SameValue(v, w)
    ensures Canonical(v) == Canonical(w)
    decreases v
  {
    match v
    case Arr(items) =>
      forall i | 0 <= i < |items| ensures Canonical(items[i]) == Canonical(w.items[i]) {
        assert items[i] in items && w.items[i] in w.items;
        SameValueCanonical(items[i], w.items[i]);
      }
    case Obj(members) => 
      var ms, ns := CanonicalMembers(members), CanonicalMembers(w.members);
      forall i | 0 <= i < |members| ensures ms[i] in ns {
        var j :| 0 <= j < |w.members| && members[i].key == w.members[j].key
              && SameValue(members[i].value, w.members[j].value);
        assert members[i] in members && w.members[j] in w.members;
        SameValueCanonical(members[i].value, w.members[j].value);
        assert ms[i] == ns[j];
      }
      SameSizeSameMembers(ms, ns);
      SortedAlike(ms, ns);
    case _ =>
  }

  lemma SortedAlike(ms: seq<Member>, ns: seq<Member>)
    requires UniqueKeys(ms) && UniqueKeys(ns) && SameMembers(ms, ns)
    ensures SortMembers(ms) == SortMembers(ns)
  {
    SortOrders(ms);
    SortOrders(ns);
    SortKeepsMembers(ms);
    SortKeepsMembers(ns);
    OrderIsUnique(SortMembers(ms), SortMembers(ns));
  }

  /** Two lists without repeated keys, as long as each other, agree once one contains the other. */
  lemma SameSizeSameMembers(ms: seq<Member>, ns: seq<Member>)
    requires UniqueKeys(ms) && UniqueKeys(ns) && |ms| == |ns|
    requires forall m :: m in ms ==> m in ns
    ensures SameMembers(ms, ns)
  {
    var s, t := set m | m in ms, set m | m in ns;
    SizeOfUnique(ms);
    SizeOfUnique(ns);
    assert t == s + (t - s);
    assert |t - s| == 0;
    assert s == t;
    forall m ensures m in ms <==> m in ns {
      assert m in s <==> m in t;
    }
  }

  lemma {:induction false} SizeOfUnique(ms: seq<Member>)
    requires UniqueKeys(ms)
    ensures |set m | m in ms| == |ms|
    decreases |ms|
  {
    if ms != [] {
      SizeOfUnique(ms[1..]);
      TailOfUnique(ms, ms[0]);
      var tail := set m | m in ms[1..];
      assert (set m | m in ms) == {ms[0]} + tail;
    }
  }

  lemma {:induction false} CanonicalSameValue(v: Json, w: Json)
    requires Canonical(v) == Canonical(w)
    ensures SameValue(v, w)
    decreases v
  {
    match v
    case Arr(items) =>
      forall i | 0 <= i < |items| ensures SameValue(items[i], w.items[i]) {
        assert CanonicalItems(items)[i] == CanonicalItems(w.items)[i];
        CanonicalSameValue(items[i], w.items[i]);
      }
    case Obj(members) =>
      var ms, ns := CanonicalMembers(members), CanonicalMembers(w.members);
      SortKeepsMembers(ms);
      SortKeepsMembers(ns);
      forall i | 0 <= i < |members|
        ensures exists j :: 0 <= j < |w.members| && members[i].key == w.members[j].key
                         && SameValue(members[i].value, w.members[j].value)
      {
        assert ms[i] in ns by {
          assert ms[i] in SortMembers(ms);
        }
        var j :| 0 <= j < |ns| && ns[j] == ms[i];
        CanonicalSameValue(members[i].value, w.members[j].value);
      }
    case _ =>
  }

  /** Parsing canonical text, stored or bare, gives the canonical value, and loses nothing. */
  lemma ParseUndoesCanonical(v: Json)
    requires WellFormed(v)
    ensures G.Parse(CanonicalText(v)) == Ok(Canonical(v))
    ensures G.Parse(CanonicalText(v) + [NEWLINE]) == Ok(Canonical(v))
    ensures SameValue(v, Canonical(v))
  {
    CanonicalIsWellFormed(v);
    RoundTrip.ParseUndoesStringify(Canonical(v));
    CanonicalTwice(v);
    CanonicalSameValue(v, Canonical(v));
  }

  lemma {:induction false} CanonicalTwice(v: Json)
    requires WellFormed(v)
    ensures Canonical(Canonical(v)) == Canonical(v)
    decreases v
  {
    match v
    case Arr(items) =>
      forall i | 0 <= i < |items| ensures Canonical(Canonical(items[i])) == Canonical(items[i]) {
        CanonicalTwice(items[i]);
      }
    case Obj(members) =>
      var ms := CanonicalMembers(members);
      var sorted := SortMembers(ms);
      SortOrders(ms);
      SortKeepsMembers(ms);
      forall i | 0 <= i < |sorted| ensures CanonicalMembers(sorted)[i] == sorted[i] {
        assert sorted[i] in sorted;
        var j :| 0 <= j < |ms| && ms[j] == sorted[i];
        CanonicalTwice(members[j].value);
      }
      assert CanonicalMembers(sorted) == sorted;
      OrderedIsUnique(sorted);
      SortedAlike(sorted, ms);
    case _ =>
  }

  /** Two values have the same canonical text exactly when they are equal up to key order. */
  lemma SameTextExactlyWhenSameValue(v: Json, w: Json)
    requires WellFormed(v) && WellFormed(w)
    ensures CanonicalText(v) == CanonicalText(w) <==> SameValue(v, w)
  {
    if CanonicalText(v) == CanonicalText(w) {
      ParseUndoesCanonical(v);
      ParseUndoesCanonical(w);
      CanonicalSameValue(v, w);
    }
    if SameValue(v, w) {
      SameValueCanonical(v, w);
    }
  }

  // ---------------------------------------------------------------- digests and stored documents

  // SHA-256 with hexadecimal output is any injective function from text to text.
  type Hash = Text -> Text

  ghost predicate Injective(sha: Hash) {
    forall s, t :: sha(s) == sha(t) ==> s == t
  }

  function PlanDigest(sha: Hash, v: Json): Text {
    sha(CanonicalText(v))
  }

  lemma DigestIdentifiesValue(sha: Hash, v: Json, w: Json)
    requires Injective(sha) && WellFormed(v) && WellFormed(w)
    ensures PlanDigest(sha, v) == PlanDigest(sha, w) <==> SameValue(v, w)
  {
    SameTextExactlyWhenSameValue(v, w);
  }

  const ID: Text := [0x69, 0x64]

  // The content schema of a revision: it sees the data of a value and not its key order.
  type Schema = Json -> bool

  ghost predicate IgnoresKeyOrder(schema: Schema) {
    forall v, w :: SameValue(v, w) && WellFormed(v) && WellFormed(w) ==> schema(v) == schema(w)
  }

  datatype PlanRevision = PlanRevision(content: seq<Member>, id: Text)

  datatype RevisionFault = NotJson(fault: G.Fault) | SchemaMismatch | DigestMismatch

  predicate HasKey(members: seq<Member>, key: Text) {
    exists m :: m in members && m.key == key
  }

  /** The content schema is strict: a revision's content is an object without an id. */
  predicate IsContent(schema: Schema, content: seq<Member>) {
    WellFormed(Obj(content)) && !HasKey(content, ID) && schema(Obj(content))
  }

  function CreatePlanRevision(sha: Hash, schema: Schema, content: seq<Member>): Option<PlanRevision> {
    if IsContent(schema, content)
    then Some(PlanRevision(content, PlanDigest(sha, Obj(content))))
    else None
  }

  function Document(revision: PlanRevision): Json {
    Obj(revision.content + [Member(ID, Str(revision.id))])
  }

  function SerializePlanDocument(v: Json): Text {
    CanonicalText(v) + [NEWLINE]
  }

  function WithoutKey(members: seq<Member>, key: Text): seq<Member> {
    if members == [] then []
    else (if members[0].key == key then [] else [members[0]]) + WithoutKey(members[1..], key)
  }

  function IdOf(members: seq<Member>): Option<Text> {
    if members == [] then None
    else if members[0].key == ID then (if members[0].value.Str? then Some(members[0].value.s) else None)
    else IdOf(members[1..])
  }

  function ParsePlanRevision(sha: Hash, schema: Schema, source: Text,
          expectedId: Option<Text>): Result<PlanRevision, RevisionFault> {
    match G.Parse(source)
    case Err(fault) => Err(NotJson(fault))
    case Ok(v) =>
      if !v.Obj? || IdOf(v.members).None? || !IsContent(schema, WithoutKey(v.members, ID)) then Err(SchemaMismatch)
      else
        var content, id := WithoutKey(v.members, ID), IdOf(v.members).value;
        var computedId := PlanDigest(sha, Obj(content));
        if id != computedId || (expectedId.Some? && expectedId.value != computedId) then Err(DigestMismatch)
        else Ok(PlanRevision(content, id))
  }

  /**
   A file that is accepted under a name holds the content of that name: any other accepted file
   for the same id carries the same data.
   */
  lemma AcceptedMatchesDigest(sha: Hash, schema: Schema, source: Text, id: Text, original: seq<Member>)
    requires Injective(sha) && IsContent(schema, original) && id == PlanDigest(sha, Obj(original))
    requires ParsePlanRevision(sha, schema, source, Some(id)).Ok?
    ensures
      var revision := ParsePlanRevision(sha, schema, source, Some(id)).value;
      revision.id == id && SameValue(Obj(revision.content), Obj(original))
  {
    var revision := ParsePlanRevision(sha, schema, source, Some(id)).value;
    DigestIdentifiesValue(sha, Obj(revision.content), Obj(original));
  }

  lemma {:induction false} WithoutKeyMembers(members: seq<Member>, key: Text)
    requires UniqueKeys(members)
    ensures forall m :: m in WithoutKey(members, key) <==> m in members && m.key != key
    ensures UniqueKeys(WithoutKey(members, key))
  {
    if members != [] {
      WithoutKeyMembers(members[1..], key);
      var rest := WithoutKey(members[1..], key);
      assert members == [members[0]] + members[1..];
      forall j | 0 <= j < |rest| ensures rest[j].key != members[0].key {
        assert rest[j] in members[1..];
        var i :| 0 <= i < |members[1..]| && members[1..][i] == rest[j];
        assert members[0].key != members[i + 1].key;
      }
      assert WithoutKey(members, key) == if members[0].key == key then rest else [members[0]] + rest;
    }
  }

  lemma {:induction false} IdOfMember(members: seq<Member>, id: Text)
    requires UniqueKeys(members) && Member(ID, Str(id)) in members
    ensures IdOf(members) == Some(id)
  {
    if members[0].key == ID {
      var i :| 0 <= i < |members| && members[i] == Member(ID, Str(id));
      assert i == 0;
    } else {
      assert members == [members[0]] + members[1..];
      IdOfMember(members[1..], id);
    }
  }

  lemma DocumentWellFormed(revision: PlanRevision)
    requires WellFormed(Obj(revision.content)) && !HasKey(revision.content, ID)
    ensures WellFormed(Document(revision))
  {
    var members := revision.content + [Member(ID, Str(revision.id))];
    forall i, j | 0 <= i < j < |members| ensures members[i].key != members[j].key {
      assert members[i] in revision.content;
    }
  }

  lemma DocumentMembers(content: seq<Member>, id: Text)
    requires !HasKey(content, ID)
    ensures
      var doc := CanonicalMembers(content + [Member(ID, Str(id))]);
      && Member(ID, Str(id)) in doc
      && forall m :: m in doc && m.key != ID <==> m in CanonicalMembers(content)
  {
    var members := content + [Member(ID, Str(id))];
    var doc, own := CanonicalMembers(members), CanonicalMembers(content);
    assert doc[|content|] == Member(ID, Str(id));
    forall m ensures m in doc && m.key != ID <==> m in own {
      if m in doc && m.key != ID {
        var i :| 0 <= i < |doc| && doc[i] == m;
        assert i < |content| && own[i] == m;
      }
      if m in own {
        var i :| 0 <= i < |own| && own[i] == m;
        assert content[i] in content && doc[i] == m;
      }
    }
  }

  /** What the reader finds in the stored object: the id, and the content with its keys in order. */
  lemma StoredMembers(content: seq<Member>, id: Text)
    requires WellFormed(Obj(content)) && !HasKey(content, ID)
    requires WellFormed(Document(PlanRevision(content, id)))
    ensures
      var stored := SortMembers(CanonicalMembers(content + [Member(ID, Str(id))]));
      && IdOf(stored) == Some(id)
      && SameMembers(WithoutKey(stored, ID), SortMembers(CanonicalMembers(content)))
      && UniqueKeys(WithoutKey(stored, ID)) && !HasKey(WithoutKey(stored, ID), ID)
  {
    var doc := CanonicalMembers(content + [Member(ID, Str(id))]);
    hide CanonicalMembers, WithoutKey, IdOf, SortMembers;
    var stored := SortMembers(doc);
    SortKeepsMembers(doc);
    SortOrders(doc);
    OrderedIsUnique(stored);
    SortKeepsMembers(CanonicalMembers(content));
    DocumentMembers(content, id);
    IdOfMember(stored, id);
    WithoutKeyMembers(stored, ID);
  }

  lemma CanonicalFixed(kept: seq<Member>)
    requires forall m :: m in kept ==> Canonical(m.value) == m.value
    ensures CanonicalMembers(kept) == kept
  {
    forall i | 0 <= i < |kept| ensures CanonicalMembers(kept)[i] == kept[i] {
      assert kept[i] in kept;
    }
  }

  /** Members that are the canonical ones up to order are the same object as the original. */
  lemma ReorderedIsSame(content: seq<Member>, kept: seq<Member>)
    requires WellFormed(Obj(content)) && UniqueKeys(kept)
    requires SameMembers(kept, SortMembers(CanonicalMembers(content)))
    ensures WellFormed(Obj(kept)) && SameValue(Obj(content), Obj(kept))
  {
    var own := CanonicalMembers(content);
    var sorted := SortMembers(own);
    CanonicalIsWellFormed(Obj(content));
    assert Canonical(Obj(content)) == Obj(sorted);
    hide CanonicalMembers, SortMembers, SameValue;
    forall m | m in kept ensures WellFormed(m.value) && Canonical(m.value) == m.value {
      assert m in sorted;
      CanonicalMemberTwice(content, m);
    }
    CanonicalFixed(kept);
    SortKeepsMembers(own);
    SortedAlike(kept, own);
    CanonicalSameValue(Obj(content), Obj(kept));
  }

  lemma CanonicalMemberTwice(content: seq<Member>, m: Member)
    requires WellFormed(Obj(content)) && m in SortMembers(CanonicalMembers(content))
    ensures Canonical(m.value) == m.value
  {
    var ms := CanonicalMembers(content);
    SortKeepsMembers(ms);
    assert m in ms;
    var i :| 0 <= i < |ms| && ms[i] == m;
    assert content[i] in content;
    CanonicalTwice(content[i].value);
  }

  lemma StoredText(content: seq<Member>, id: Text)
    requires WellFormed(Obj(content)) && !HasKey(content, ID)
    ensures WellFormed(Document(PlanRevision(content, id)))
    ensures G.Parse(SerializePlanDocument(Document(PlanRevision(content, id))))
         == Ok(Obj(SortMembers(CanonicalMembers(content + [Member(ID, Str(id))]))))
  {
    var revision := PlanRevision(content, id);
    DocumentWellFormed(revision);
    ParseUndoesCanonical(Document(revision));
  }

  /**
   Storing a revision and reading the file back under its id is accepted, and gives the same
   content and id.
   */
  lemma StoredRevisionReadsBack(sha: Hash, schema: Schema, content: seq<Member>)
    requires IgnoresKeyOrder(schema) && IsContent(schema, content)
    ensures
      var revision := CreatePlanRevision(sha, schema, content).value;
      var result := ParsePlanRevision(sha, schema, SerializePlanDocument(Document(revision)), Some(revision.id));
      && result.Ok?
      && result.value.id == revision.id
      && SameValue(Obj(content), Obj(result.value.content))
  {
    hide SortMembers, CanonicalMembers, WithoutKey, IdOf, HasKey, Canonical, WellFormed, SameValue, CanonicalText,
      G.Parse, SerializePlanDocument, Document;
    var id := PlanDigest(sha, Obj(content));
    StoredText(content, id);
    StoredMembers(content, id);
    var stored := SortMembers(CanonicalMembers(content + [Member(ID, Str(id))]));
    var kept := WithoutKey(stored, ID);
    ReorderedIsSame(content, kept);
    SameTextExactlyWhenSameValue(Obj(content), Obj(kept));
    assert schema(Obj(content)) == schema(Obj(kept));
  }
}
