/** Customization manifests: normalising, comparing, and what runs of stamping and applying do. */
module Manifest {
  import opened Wrappers
  import opened Json

  const REBUILD_TRIGGER := "io.tyk.rebuild-trigger"

  type Mapping = map<string, Json>

  /** A YAML document of the input: one that does not parse, or its value. */
  datatype Document = Malformed | Document(value: Json)

  datatype Error = NoDocument | BadYaml | NotMapping | Empty | MultipleDocuments | CannotMarshal

  // ---------- Decoding ----------

  /** What is left to compare: no id, no rebuild trigger, and no annotations when nothing else is in them. */
  function Normal(m: Mapping): Mapping {
    var n := m - {"id"};
    if "annotations" in n && n["annotations"].Object? then
      var a := n["annotations"].fields - {REBUILD_TRIGGER};
      if a == map[] then n - {"annotations"} else n["annotations" := Object(a)]
    else n
  }

  function Decode(docs: seq<Document>): Result<Mapping, Error> {
    if docs == [] then Failure(NoDocument)
    else if docs[0].Malformed? then Failure(BadYaml)
    else if !docs[0].value.Object? && !docs[0].value.Null? then Failure(NotMapping)
    else if docs[0].value.Null? || docs[0].value.fields == map[] then Failure(Empty)
    else if |docs| > 1 then Failure(if docs[1].Malformed? then BadYaml else MultipleDocuments)
    else Success(Normal(docs[0].value.fields))
  }

  /** `decodeCustomization`, which deletes from the decoded map in place. */
  method DecodeCustomization(docs: seq<Document>) returns (r: Result<Mapping, Error>)
    ensures r == Decode(docs)
  {
    hide Normal;
    if |docs| == 0 {
      return Failure(NoDocument);
    }
    if docs[0].Malformed? {
      return Failure(BadYaml);
    }
    var value: Mapping := map[];
    if docs[0].value.Object? {
      value := docs[0].value.fields;
    } else if !docs[0].value.Null? {
      return Failure(NotMapping);
    }
    if |value| == 0 {
      return Failure(Empty);
    }
    if |docs| > 1 {
      return Failure(if docs[1].Malformed? then BadYaml else MultipleDocuments);
    }
    value := DeleteIgnored(value);
    return Success(value);
  }

  /** The deletions at the end of `decodeCustomization`. */
  method DeleteIgnored(decoded: Mapping) returns (value: Mapping)
    ensures value == Normal(decoded)
  {
    value := decoded - {"id"};
    if "annotations" in value && value["annotations"].Object? {
      var annotations := value["annotations"].fields;
      annotations := annotations - {REBUILD_TRIGGER};
      DeleteAfterUpdate(value, "annotations", Object(annotations));
      value := value["annotations" := Object(annotations)];
      if |annotations| == 0 {
        value := value - {"annotations"};
      }
    }
  }

  lemma DeleteAfterUpdate(m: Mapping, k: string, v: Json)
    ensures m[k := v] - {k} == m - {k}
  {
  }

  /** The first document is a mapping with something in it. */
  predicate HasContent(docs: seq<Document>) {
    docs != [] && docs[0].Document? && docs[0].value.Object? && docs[0].value.fields != map[]
  }

  /** Decoding succeeds exactly for a single document that is a mapping with something in it, and each error has
      its own inputs. What follows a second document is never looked at. */
  lemma DecodesExactly(docs: seq<Document>)
    ensures Decode(docs).Success? <==> HasContent(docs) && |docs| == 1
    ensures Decode(docs).Success? ==> Decode(docs).value == Normal(docs[0].value.fields)
    ensures Decode(docs) == Failure(NoDocument) <==> |docs| == 0
    ensures Decode(docs) == Failure(BadYaml) <==>
              (|docs| > 0 && docs[0] == Malformed) || (HasContent(docs) && |docs| > 1 && docs[1] == Malformed)
    ensures Decode(docs) == Failure(Empty) <==>
              |docs| > 0 && (docs[0] == Document(Null) || docs[0] == Document(Object(map[])))
    ensures Decode(docs) == Failure(MultipleDocuments) <==> HasContent(docs) && |docs| > 1 && docs[1] != Malformed
    ensures Decode(docs) == Failure(NotMapping) <==>
              |docs| > 0 && docs[0] != Malformed && docs[0] != Document(Null) && forall m :: docs[0] != Document(Object(m))
  {
    hide Normal;
    assert |docs| > 0 && docs[0].Document? && docs[0].value.Object? ==> docs[0] == Document(Object(docs[0].value.fields));
  }

  // ---------- Comparing ----------

  ghost function EqualCustomizations(left: seq<Document>, right: seq<Document>): Result<bool, Error> {
    var l, r := Decode(left), Decode(right);
    if l.Failure? then Failure(l.error)
    else if r.Failure? then Failure(r.error)
    else if !Printable(Object(l.value)) || !Printable(Object(r.value)) then Failure(CannotMarshal)
    else Success(Print(Object(l.value)) == Print(Object(r.value)))
  }

  function Get(m: Mapping, k: string): Option<Json> {
    if k in m then Some(m[k]) else None
  }

  /** Annotations that are missing, or a mapping. */
  predicate PlainAnnotations(m: Mapping) {
    "annotations" in m ==> m["annotations"].Object?
  }

  function Annotation(m: Mapping, k: string): Option<Json>
    requires PlainAnnotations(m)
  {
    if "annotations" in m then Get(m["annotations"].fields, k) else None
  }

  /** The manifests differ at most in their id, in the rebuild trigger, and in whether empty annotations
      are written out. */
  ghost predicate SameImage(a: Mapping, b: Mapping) {
    && (forall k | k != "id" && k != "annotations" :: Get(a, k) == Get(b, k))
    && if PlainAnnotations(a) && PlainAnnotations(b)
       then forall k | k != "io.tyk.rebuild-trigger" :: Annotation(a, k) == Annotation(b, k)
       else Get(a, "annotations") == Get(b, "annotations")
  }

  lemma NormalAt(m: Mapping, k: string)
    requires k != "annotations"
    ensures Get(Normal(m), k) == if k == "id" then None else Get(m, k)
  {
  }

  lemma NormalAnnotations(m: Mapping)
    ensures !PlainAnnotations(m) ==> Get(Normal(m), "annotations") == Get(m, "annotations")
    ensures PlainAnnotations(m) ==> PlainAnnotations(Normal(m))
    ensures PlainAnnotations(m) ==>
              (forall k :: Annotation(Normal(m), k) == if k == REBUILD_TRIGGER then None else Annotation(m, k))
    ensures PlainAnnotations(m) && "annotations" in Normal(m) ==> Normal(m)["annotations"].fields != map[]
    ensures PlainAnnotations(m) <==> PlainAnnotations(Normal(m))
  {
    if "annotations" in m && m["annotations"].Object? {
      var f := m["annotations"].fields;
      var a := f - {REBUILD_TRIGGER};
      assert forall k :: Get(a, k) == if k == REBUILD_TRIGGER then None else Get(f, k);
      assert a == map[] ==> forall k :: Get(a, k) == None;
    }
  }

  lemma SameGets(a: Mapping, b: Mapping)
    requires forall k :: Get(a, k) == Get(b, k)
    ensures a == b
  {
    forall k ensures k in a <==> k in b {
      assert Get(a, k) == Get(b, k);
    }
    forall k | k in a ensures a[k] == b[k] {
      assert Get(a, k) == Get(b, k);
    }
  }

  /** Annotations of normal forms are determined by their single entries. */
  lemma NormalAnnotationsAgree(n: Mapping, o: Mapping)
    requires PlainAnnotations(n) && PlainAnnotations(o)
    requires "annotations" in n ==> n["annotations"].fields != map[]
    requires "annotations" in o ==> o["annotations"].fields != map[]
    ensures Get(n, "annotations") == Get(o, "annotations") <==> forall k :: Annotation(n, k) == Annotation(o, k)
  {
    if "annotations" in n {
      var k :| k in n["annotations"].fields;
      assert Annotation(n, k).Some?;
    }
    if "annotations" in o {
      var k :| k in o["annotations"].fields;
      assert Annotation(o, k).Some?;
    }
    if "annotations" in n && "annotations" in o && (forall k :: Annotation(n, k) == Annotation(o, k)) {
      forall k ensures Get(n["annotations"].fields, k) == Get(o["annotations"].fields, k) {
        assert Annotation(n, k) == Annotation(o, k);
      }
      SameGets(n["annotations"].fields, o["annotations"].fields);
    }
  }

  lemma SamePlainness(a: Mapping, b: Mapping)
    ensures Get(a, "annotations") == Get(b, "annotations") ==> PlainAnnotations(a) == PlainAnnotations(b)
  {
  }

  /** Normal forms agree exactly on manifests for the same image. */
  lemma NormalExactly(a: Mapping, b: Mapping)
    ensures Normal(a) == Normal(b) <==> SameImage(a, b)
  {
    hide Normal, Get, Annotation;
    var n, o := Normal(a), Normal(b);
    NormalAnnotations(a);
    NormalAnnotations(b);
    forall k | k != "annotations"
      ensures Get(n, k) == (if k == "id" then None else Get(a, k)) && Get(o, k) == (if k == "id" then None else Get(b, k))
    {
      NormalAt(a, k);
      NormalAt(b, k);
    }
    if PlainAnnotations(a) && PlainAnnotations(b) {
      NormalAnnotationsAgree(n, o);
    }
    SamePlainness(n, o);
    if SameImage(a, b) {
      SamePlainness(a, b);
      if PlainAnnotations(a) && PlainAnnotations(b) {
        assert forall k :: Annotation(n, k) == Annotation(o, k);
      }
      assert Get(n, "annotations") == Get(o, "annotations");
      SameGets(n, o);
    }
  }

  /** A manifest that decodes and prints, so that it can be compared. */
  ghost predicate Comparable(m: Mapping) {
    m != map[] && Printable(Object(Normal(m)))
  }

  ghost function Compare(a: Mapping, b: Mapping): Result<bool, Error> {
    EqualCustomizations([Document(Object(a))], [Document(Object(b))])
  }

  /** Comparing answers exactly when both manifests can be compared, and says yes exactly when they are
      for the same image. */
  lemma CompareExactly(a: Mapping, b: Mapping)
    ensures Compare(a, b).Success? <==> Comparable(a) && Comparable(b)
    ensures Compare(a, b).Success? ==> (Compare(a, b).value <==> SameImage(a, b))
  {
    hide Normal, Print, Printable, SameImage;
    NormalExactly(a, b);
    if Comparable(a) && Comparable(b) {
      PrintInjective(Object(Normal(a)), Object(Normal(b)));
    }
  }

  /** Among manifests that can be compared, "equal" is an equivalence. */
  lemma EqualIsEquivalence(a: Mapping, b: Mapping, c: Mapping)
    requires Comparable(a) && Comparable(b) && Comparable(c)
    ensures Compare(a, a) == Success(true)
    ensures Compare(a, b) == Success(true) ==> Compare(b, a) == Success(true)
    ensures Compare(a, b) == Success(true) && Compare(b, c) == Success(true) ==> Compare(a, c) == Success(true)
  {
    hide Compare, SameImage;
    CompareExactly(a, a);
    CompareExactly(a, b);
    CompareExactly(b, a);
    CompareExactly(b, c);
    CompareExactly(a, c);
    NormalExactly(a, a);
    NormalExactly(a, b);
    NormalExactly(b, a);
    NormalExactly(b, c);
    NormalExactly(a, c);
  }

  // ---------- Stamping and applying ----------

  /** One run of the release workflow, which stamps its run id into the remote manifest, or of the apply
      script, which may edit the remote manifest to match the desired one. */
  datatype Event = Stamp(runId: string) | Apply

  /** The stamped manifest: only annotations that are missing, empty or a mapping can be stamped. */
  function Stamped(m: Mapping, runId: string): Mapping {
    var old' := if "annotations" !in m || m["annotations"].Null? then Some(map[])
                else if m["annotations"].Object? then Some(m["annotations"].fields) else None;
    if old'.None? then m else m["annotations" := Object(old'.value[REBUILD_TRIGGER := Str(runId)])]
  }

  /** What the server holds after a manifest is created, or edited under its id. */
  function WithId(desired: Mapping, id: string): Mapping {
    (desired - {"id"})["id" := Str(id)]
  }

  /** The apply script edits when there is a remote manifest and it compares as different. */
  ghost predicate Edits(desired: Mapping, remote: Option<Mapping>, e: Event) {
    e.Apply? && remote.Some? && Compare(desired, remote.value) == Success(false)
  }

  ghost function After(desired: Mapping, id: string, remote: Option<Mapping>, e: Event): Option<Mapping> {
    match e
    case Stamp(runId) => if remote.Some? then Some(Stamped(remote.value, runId)) else None
    case Apply => if remote.None? || Edits(desired, remote, e) then Some(WithId(desired, id)) else remote
  }

  ghost function EditCount(desired: Mapping, id: string, remote: Option<Mapping>, events: seq<Event>): nat
    decreases |events|
  {
    if events == [] then 0
    else
      var later := EditCount(desired, id, After(desired, id, remote, events[0]), events[1..]);
      if Edits(desired, remote, events[0]) then later + 1 else later
  }

  lemma WithIdIsSame(desired: Mapping, id: string)
    ensures SameImage(desired, WithId(desired, id)) && WithId(desired, id) != map[]
  {
    assert "id" in WithId(desired, id);
  }

  /** A stamp keeps a manifest the same image as the desired one, unless its annotations are null. */
  lemma StampKeepsImage(desired: Mapping, m: Mapping, runId: string)
    requires SameImage(desired, m) && Get(desired, "annotations") != Some(Null)
    ensures SameImage(desired, Stamped(m, runId))
  {
    SamePlainness(desired, m);
    var s := Stamped(m, runId);
    if PlainAnnotations(desired) && PlainAnnotations(m) {
      forall k | k != REBUILD_TRIGGER ensures Annotation(m, k) == Annotation(s, k) {
      }
    }
  }

  lemma StampedNotEmpty(m: Mapping, runId: string)
    requires m != map[]
    ensures Stamped(m, runId) != map[]
  {
    var k :| k in m;
    assert k in Stamped(m, runId);
  }

  ghost predicate InSync(desired: Mapping, remote: Option<Mapping>) {
    remote.Some? && remote.value != map[] && SameImage(desired, remote.value)
  }

  lemma InSyncStays(desired: Mapping, id: string, remote: Option<Mapping>, e: Event)
    requires InSync(desired, remote) && Get(desired, "annotations") != Some(Null)
    ensures !Edits(desired, remote, e) && InSync(desired, After(desired, id, remote, e))
  {
    hide SameImage, Compare, Stamped;
    CompareExactly(desired, remote.value);
    if e.Stamp? {
      StampKeepsImage(desired, remote.value, e.runId);
      StampedNotEmpty(remote.value, e.runId);
    }
  }

  /** One apply brings a remote manifest that can be compared, or none, in sync. */
  lemma ApplySyncs(desired: Mapping, id: string, remote: Option<Mapping>)
    requires Comparable(desired) && (remote.Some? ==> Comparable(remote.value))
    ensures InSync(desired, After(desired, id, remote, Apply))
  {
    hide Compare, SameImage, Normal;
    WithIdIsSame(desired, id);
    if remote.Some? {
      CompareExactly(desired, remote.value);
    }
  }

  lemma {:induction false} NoEditInSync(desired: Mapping, id: string, remote: Option<Mapping>, events: seq<Event>)
    requires InSync(desired, remote) && Get(desired, "annotations") != Some(Null)
    ensures EditCount(desired, id, remote, events) == 0
    decreases |events|
  {
    hide InSync, Edits, After;
    if events != [] {
      InSyncStays(desired, id, remote, events[0]);
      NoEditInSync(desired, id, After(desired, id, remote, events[0]), events[1..]);
    }
  }

  /** Over any run of stamps and applies, from any remote state, the script issues at most one edit. */
  lemma {:induction false} AtMostOneEdit(desired: Mapping, id: string, remote: Option<Mapping>, events: seq<Event>)
    requires Get(desired, "annotations") != Some(Null)
    ensures EditCount(desired, id, remote, events) <= 1
    decreases |events|
  {
    hide Compare, SameImage, Stamped, WithId;
    if events != [] {
      var next := After(desired, id, remote, events[0]);
      if Edits(desired, remote, events[0]) {
        WithIdIsSame(desired, id);
        NoEditInSync(desired, id, next, events[1..]);
      } else {
        AtMostOneEdit(desired, id, next, events[1..]);
      }
    }
  }

  /** A desired manifest that cannot be compared never leads to an edit. */
  lemma {:induction false} NoEditUncompared(desired: Mapping, id: string, remote: Option<Mapping>, events: seq<Event>)
    requires !Comparable(desired)
    ensures EditCount(desired, id, remote, events) == 0
    decreases |events|
  {
    hide Compare, Comparable, After;
    if events != [] {
      if remote.Some? {
        CompareExactly(desired, remote.value);
      }
      NoEditUncompared(desired, id, After(desired, id, remote, events[0]), events[1..]);
    }
  }

  /** Null annotations defeat it: apply, stamp, apply edits twice. */
  lemma NullAnnotationsEditTwice(desired: Mapping, id: string) returns (remote: Option<Mapping>, events: seq<Event>)
    requires Comparable(desired) && Get(desired, "annotations") == Some(Null)
    ensures EditCount(desired, id, remote, events) == 2
  {
    var r := desired["annotations" := Str("")];
    remote, events := Some(r), [Apply, Stamp("1"), Apply];
    var first := WithId(desired, id);
    var second := Stamped(first, "1");
    NullDiffers(desired, r);
    NullDiffers(desired, second);
    assert events[1..] == [Stamp("1"), Apply] && [Stamp("1"), Apply][1..] == [Apply] && [Apply][1..] == [];
    assert EditCount(desired, id, Some(second), [Apply]) == 1;
    assert EditCount(desired, id, Some(first), [Stamp("1"), Apply]) == 1;
  }

  lemma NullDiffers(desired: Mapping, m: Mapping)
    requires Comparable(desired) && Get(desired, "annotations") == Some(Null)
    requires "annotations" in m && (m["annotations"].Str? || m["annotations"].Object?)
    requires forall k | k in m && k != "annotations" && k != "id" :: k in desired && m[k] == desired[k]
    requires m["annotations"].Object? ==> m["annotations"].fields == map[REBUILD_TRIGGER := Str("1")]
    ensures Compare(desired, m) == Success(false)
  {
    hide Compare, Print;
    CompareExactly(desired, m);
    var n := Normal(m);
    forall k | k in n ensures Printable(n[k]) {
      if k != "annotations" {
        assert k in Normal(desired) && Normal(desired)[k] == n[k];
      }
    }
  }

  /** At most one edit, whatever the remote state and the run, exactly when the desired manifest cannot
      be compared or does not have null annotations. */
  lemma AtMostOneEditExactly(desired: Mapping, id: string)
    ensures (forall remote: Option<Mapping>, events :: EditCount(desired, id, remote, events) <= 1) <==>
            !Comparable(desired) || Get(desired, "annotations") != Some(Null)
  {
    hide EditCount, Comparable;
    if !Comparable(desired) {
      forall remote: Option<Mapping>, events ensures EditCount(desired, id, remote, events) <= 1 {
        NoEditUncompared(desired, id, remote, events);
      }
    } else if Get(desired, "annotations") != Some(Null) {
      forall remote: Option<Mapping>, events ensures EditCount(desired, id, remote, events) <= 1 {
        AtMostOneEdit(desired, id, remote, events);
      }
    } else {
      var remote, events := NullAnnotationsEditTwice(desired, id);
    }
  }
}
