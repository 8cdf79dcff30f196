/**
 * The two flows of the web page, without the widgets: recognition (load the gallery from
 * the store, match every detected face against it, resolve a name and an age) and
 * registration (validate the form, get or create the person, store every detected face).
 * The detector is the parameter `detect`; uploaded images arrive already decoded.
 */
module App {
  import opened Common
  import opened FaceEngine
  import Database

  /** Column count of the empty gallery matrix: the reference model's embedding size. */
  const EmbeddingDim: nat := 512

  const UnknownName: string := "Unknown"

  // ---------------------------------------------------------------- gallery

  /** One entry of `meta`: which face row `i` of the gallery is, and whose. */
  datatype GalleryEntry = GalleryEntry(faceId: int, personId: int, name: string)

  /** The joined (face, person) row for face `k`. */
  function EntryOf(persons: map<int, Database.Person>, faces: map<int, Database.FaceEmb>, k: int): GalleryEntry
    requires k in faces && faces[k].personId in persons
  {
    GalleryEntry(k, faces[k].personId, persons[faces[k].personId].name)
  }

  /** `embs` and `meta` are parallel, row `i` is the embedding of the face `meta[i]`
      describes, and every face whose person exists (the inner join) appears once. */
  ghost predicate DescribesStore(persons: map<int, Database.Person>, faces: map<int, Database.FaceEmb>,
                                 embs: seq<seq<real>>, meta: seq<GalleryEntry>)
  {
    && |embs| == |meta|
    && (forall i :: 0 <= i < |meta| ==>
          meta[i].faceId in faces && faces[meta[i].faceId].personId in persons
          && meta[i] == EntryOf(persons, faces, meta[i].faceId)
          && embs[i] == faces[meta[i].faceId].embedding)
    && (forall k :: k in faces && faces[k].personId in persons ==> EntryOf(persons, faces, k) in meta)
    && (forall i, j :: 0 <= i < j < |meta| ==> meta[i].faceId != meta[j].faceId)
  }

  /** The gallery-building loop: one embedding row and one `meta` entry per stored face,
      in the order the query yields them. */
  method LoadGallery(store: Database.Store) returns (embs: seq<seq<real>>, meta: seq<GalleryEntry>)
    ensures DescribesStore(store.persons, store.faces, embs, meta)
  {
    embs, meta := [], [];
    var todo := store.faces.Keys;
    ghost var done: set<int> := {};
    while todo != {}
      invariant done + todo == store.faces.Keys && done !! todo
      invariant |embs| == |meta|
      invariant forall i :: 0 <= i < |meta| ==>
                  meta[i].faceId in done && store.faces[meta[i].faceId].personId in store.persons
                  && meta[i] == EntryOf(store.persons, store.faces, meta[i].faceId)
                  && embs[i] == store.faces[meta[i].faceId].embedding
      invariant forall k :: k in done && store.faces[k].personId in store.persons ==>
                  EntryOf(store.persons, store.faces, k) in meta
      invariant forall i, j :: 0 <= i < j < |meta| ==> meta[i].faceId != meta[j].faceId
      decreases |todo|
    {
      NonEmptyHasMember(todo);
      var k :| k in todo;
      var fe := store.faces[k];
      if fe.personId in store.persons {
        embs := embs + [fe.embedding];
        meta := meta + [GalleryEntry(k, fe.personId, store.persons[fe.personId].name)];
      }
      todo, done := todo - {k}, done + {k};
    }
  }

  /** `np.stack(db_embs)`, or `np.empty((0, 512))` for no rows; None where numpy raises
      because two rows differ in length. */
  function Stack(embs: seq<seq<real>>): (g: Option<Matrix>)
    ensures g.Some? ==> Shaped(g.value) && g.value.rows == embs
    ensures embs == [] ==> g.Some? && g.value.width == EmbeddingDim
    ensures g.None? <==> exists i, j :: 0 <= i < |embs| && 0 <= j < |embs| && |embs[i]| != |embs[j]|
  {
    if embs == [] then Some(Matrix([], EmbeddingDim))
    else if forall i :: 0 <= i < |embs| ==> |embs[i]| == |embs[0]| then Some(Matrix(embs, |embs[0]|))
    else None
  }

  // ---------------------------------------------------------------- recognition

  /** One entry of `results`. */
  datatype FaceReport = FaceReport(bbox: Box, name: string, gender: Option<string>, age: Option<int>, similarity: real)

  /** The reported age: missing or negative (the detector's "unavailable") becomes None. */
  function ReportedAge(age: Option<int>): (a: Option<int>)
    ensures a.Some? <==> age.Some? && age.value >= 0
    ensures a.Some? ==> a.value == age.value
  {
    if age.Some? && age.value >= 0 then age else None
  }

  /** The query embedding can be multiplied with the gallery (or the gallery is empty). */
  predicate Compatible(f: FaceResult, g: Matrix)
  {
    Size(g) == 0 || |f.embedding| == g.width
  }

  /** The body of the recognition loop for one detected face. */
  function ReportFor(f: FaceResult, g: Matrix, meta: seq<GalleryEntry>): (rep: FaceReport)
    requires Shaped(g) && |meta| == |g.rows| && Compatible(f, g)
    ensures rep.bbox == f.bbox && rep.gender == f.gender && rep.age == ReportedAge(f.age)
    ensures Size(g) == 0 ==> rep.name == UnknownName && rep.similarity == 0.0
    ensures rep.similarity < SimThreshold ==> rep.name == UnknownName
    ensures rep.name == UnknownName || exists i :: 0 <= i < |meta| && rep.name == meta[i].name
    ensures Size(g) != 0 ==>
              rep.similarity in Similarities(g, f.embedding)
              && forall j :: 0 <= j < |g.rows| ==> Similarities(g, f.embedding)[j] <= rep.similarity
    ensures Size(g) != 0 && rep.similarity >= SimThreshold ==>
              exists i :: 0 <= i < |meta| && Similarities(g, f.embedding)[i] == rep.similarity
                          && (forall j :: 0 <= j < i ==> Similarities(g, f.embedding)[j] < rep.similarity)
                          && rep.name == meta[i].name
  {
    var m := Match(f.embedding, g);
    FaceReport(f.bbox, if m.index >= 0 then meta[m.index].name else UnknownName,
               f.gender, ReportedAge(f.age), m.similarity)
  }

  datatype RecognizeError =
    | GalleryShapeMismatch   // np.stack: stored embeddings of different lengths
    | QueryShapeMismatch     // db_embs @ query_emb: a query of another length

  /** Recognition: one report per detected face, in detection order, each matched against
      the whole gallery; `embs` and `meta` are the gallery as loaded. */
  method Recognize(store: Database.Store, img: Image, detect: Image -> seq<Detection>)
    returns (r: Result<seq<FaceReport>, RecognizeError>, embs: seq<seq<real>>, meta: seq<GalleryEntry>)
    ensures DescribesStore(store.persons, store.faces, embs, meta)
    ensures r == Err(GalleryShapeMismatch) <==> Stack(embs).None?
    ensures r == Err(QueryShapeMismatch) <==>
              Stack(embs).Some? &&
              exists i :: 0 <= i < |Extracted(img, detect(img))| && !Compatible(Extracted(img, detect(img))[i], Stack(embs).value)
    ensures r.Ok? ==>
              var faces := Extracted(img, detect(img));
              && Stack(embs).Some?
              && |r.value| == |faces|
              && forall i :: 0 <= i < |faces| ==>
                   Compatible(faces[i], Stack(embs).value) && r.value[i] == ReportFor(faces[i], Stack(embs).value, meta)
  {
    var faces := Extract(img, detect);
    var rows, entries := LoadGallery(store);
    embs, meta := rows, entries;
    var stacked := Stack(rows);
    if stacked.None? {
      r := Err(GalleryShapeMismatch);
      return;
    }
    var g := stacked.value;
    var results: seq<FaceReport> := [];
    for i := 0 to |faces|
      invariant |results| == i
      invariant forall j :: 0 <= j < i ==> Compatible(faces[j], g) && results[j] == ReportFor(faces[j], g, entries)
    {
      var f := faces[i];
      if !Compatible(f, g) {
        r := Err(QueryShapeMismatch);
        return;
      }
      results := results + [ReportFor(f, g, entries)];
    }
    r := Ok(results);
  }

  /** Face `k` is stored, its person exists, and no such face is more similar to `q`. */
  ghost predicate BestStoredFace(persons: map<int, Database.Person>, faces: map<int, Database.FaceEmb>, q: seq<real>, k: int)
  {
    && k in faces && faces[k].personId in persons && |faces[k].embedding| == |q|
    && forall k' :: k' in faces && faces[k'].personId in persons ==>
         |faces[k'].embedding| == |q| && Dot(faces[k'].embedding, q) <= Dot(faces[k].embedding, q)
  }

  /** What a report means for the store: a resolved name is the name of the owner of a
      stored face at least as similar as every other, at or above the threshold; "Unknown"
      means every stored face is below the threshold. */
  lemma ReportNamesBestStoredFace(persons: map<int, Database.Person>, faces: map<int, Database.FaceEmb>,
                                  embs: seq<seq<real>>, meta: seq<GalleryEntry>, f: FaceResult)
    requires DescribesStore(persons, faces, embs, meta)
    requires Stack(embs).Some? && Compatible(f, Stack(embs).value)
    ensures var rep := ReportFor(f, Stack(embs).value, meta);
            Match(f.embedding, Stack(embs).value).index >= 0 ==>
              exists k :: BestStoredFace(persons, faces, f.embedding, k)
                          && rep.name == persons[faces[k].personId].name
                          && rep.similarity == Dot(faces[k].embedding, f.embedding)
                          && rep.similarity >= SimThreshold
    ensures var rep := ReportFor(f, Stack(embs).value, meta);
            Match(f.embedding, Stack(embs).value).index < 0 ==>
              rep.name == UnknownName
              && forall k :: k in faces && faces[k].personId in persons && |faces[k].embedding| == |f.embedding| ==>
                   Dot(faces[k].embedding, f.embedding) < SimThreshold
  {
    var g := Stack(embs).value;
    var q := f.embedding;
    var m := Match(q, g);
    if m.index >= 0 {
      var sims := Similarities(g, q);
      var k := meta[m.index].faceId;
      assert embs[m.index] == faces[k].embedding;
      forall k' | k' in faces && faces[k'].personId in persons
        ensures |faces[k'].embedding| == |q| && Dot(faces[k'].embedding, q) <= Dot(faces[k].embedding, q)
      {
        var i :| 0 <= i < |meta| && meta[i] == EntryOf(persons, faces, k');
        assert embs[i] == faces[k'].embedding;
        assert sims[i] <= m.similarity;
      }
      assert BestStoredFace(persons, faces, q, k);
    } else {
      forall k | k in faces && faces[k].personId in persons && |faces[k].embedding| == |q|
        ensures Dot(faces[k].embedding, q) < SimThreshold
      {
        var i :| 0 <= i < |meta| && meta[i] == EntryOf(persons, faces, k);
        assert embs[i] == faces[k].embedding;
        if Size(g) == 0 {
          assert g.width == 0;
          DotEmpty(faces[k].embedding, q);
        } else {
          assert Similarities(g, q)[i] <= m.similarity;
        }
      }
    }
  }

  // ---------------------------------------------------------------- registration

  /** The characters Python's `str.strip()` removes (those for which `isspace()` holds). */
  predicate IsSpace(c: char)
  {
    || c == ' ' || c == '\t' || c == '\n' || c == '\r' || c == '\U{000B}' || c == '\U{000C}'
    || ('\U{001C}' <= c <= '\U{001F}') || c == '\U{0085}' || c == '\U{00A0}' || c == '\U{1680}'
    || ('\U{2000}' <= c <= '\U{200A}') || c == '\U{2028}' || c == '\U{2029}' || c == '\U{202F}'
    || c == '\U{205F}' || c == '\U{3000}'
  }

  function StripLeft(s: string): (r: string)
    ensures |r| <= |s| && r == s[|s| - |r|..]
    ensures forall i :: 0 <= i < |s| - |r| ==> IsSpace(s[i])
    ensures r != [] ==> !IsSpace(r[0])
    decreases |s|
  {
    if s != [] && IsSpace(s[0]) then StripLeft(s[1..]) else s
  }

  function StripRight(s: string): (r: string)
    ensures |r| <= |s| && r == s[..|r|]
    ensures forall i :: |r| <= i < |s| ==> IsSpace(s[i])
    ensures r != [] ==> !IsSpace(r[|r| - 1])
    decreases |s|
  {
    if s != [] && IsSpace(s[|s| - 1]) then StripRight(s[..|s| - 1]) else s
  }

  /** `str.strip()`: the input without its leading and trailing whitespace. */
  function Strip(s: string): (r: string)
    ensures r == [] <==> forall i :: 0 <= i < |s| ==> IsSpace(s[i])
    ensures r != [] ==> !IsSpace(r[0]) && !IsSpace(r[|r| - 1])
  {
    var l := StripLeft(s);
    assert StripRight(l) != [] ==> !IsSpace(l[0]);
    StripRight(l)
  }

  /** `Strip` removes whitespace at the two ends and nothing else: its result is a
      contiguous piece of the input with only whitespace before and after it. */
  lemma StripRemovesOnlyOuterWhitespace(s: string)
    ensures exists a, b :: 0 <= a <= b <= |s| && Strip(s) == s[a..b]
                           && (forall i :: 0 <= i < a ==> IsSpace(s[i]))
                           && (forall i :: b <= i < |s| ==> IsSpace(s[i]))
  {
    TwoCutsLeaveSpan(s, StripLeft(s), Strip(s));
  }

  /** Cutting a whitespace prefix off `s` (giving `l`) and then a whitespace suffix off
      `l` (giving `r`) leaves a span of `s` with whitespace on both sides. */
  lemma TwoCutsLeaveSpan(s: string, l: string, r: string)
    requires |l| <= |s| && l == s[|s| - |l|..] && forall i :: 0 <= i < |s| - |l| ==> IsSpace(s[i])
    requires |r| <= |l| && r == l[..|r|] && forall i :: |r| <= i < |l| ==> IsSpace(l[i])
    ensures exists a, b :: 0 <= a <= b <= |s| && r == s[a..b]
                           && (forall i :: 0 <= i < a ==> IsSpace(s[i]))
                           && (forall i :: b <= i < |s| ==> IsSpace(s[i]))
  {
    var a := |s| - |l|;
    var b := a + |r|;
    assert r == s[a..b];
    forall i | b <= i < |s|
      ensures IsSpace(s[i])
    {
      assert s[i] == l[i - a];
    }
  }

  /** Stripping a string that neither starts nor ends with whitespace changes nothing. */
  lemma StripKeepsTrimmed(t: string)
    requires t != [] ==> !IsSpace(t[0]) && !IsSpace(t[|t| - 1])
    ensures Strip(t) == t
  {
    assert StripLeft(t) == t;
    assert StripRight(t) == t;
  }

  lemma StripIdempotent(s: string)
    ensures Strip(Strip(s)) == Strip(s)
  {
    StripKeepsTrimmed(Strip(s));
  }

  /** `not name.strip()`. */
  predicate IsBlank(name: string) { Strip(name) == [] }

  /** `info.strip() if info else None`. */
  function InfoArg(info: string): (r: Option<string>)
    ensures r.None? <==> info == []
    ensures r.Some? ==> Strip(r.value) == r.value
    ensures r.Some? && r.value == [] ==> forall i :: 0 <= i < |info| ==> IsSpace(info[i])
  {
    StripIdempotent(info);
    if info == [] then None else Some(Strip(info))
  }

  /** The note passed on is the field with its leading and trailing whitespace cut off. */
  lemma InfoArgIsTheTrimmedField(info: string)
    requires info != []
    ensures exists a, b :: 0 <= a <= b <= |info| && InfoArg(info).value == info[a..b]
              && (forall i :: 0 <= i < a ==> IsSpace(info[i]))
              && (forall i :: b <= i < |info| ==> IsSpace(info[i]))
  {
    StripRemovesOnlyOuterWhitespace(info);
  }

  /** Every face detected in `imgs`, image after image, in detection order. */
  function DetectedFaces(imgs: seq<Image>, detect: Image -> seq<Detection>): seq<FaceResult>
  {
    if imgs == [] then []
    else DetectedFaces(imgs[..|imgs| - 1], detect) + Extracted(imgs[|imgs| - 1], detect(imgs[|imgs| - 1]))
  }

  lemma {:induction false} DetectedFacesAppend(a: seq<Image>, b: seq<Image>, detect: Image -> seq<Detection>)
    ensures DetectedFaces(a + b, detect) == DetectedFaces(a, detect) + DetectedFaces(b, detect)
    decreases |b|
  {
    if b != [] {
      var b', x := b[..|b| - 1], b[|b| - 1];
      assert (a + b)[..|a + b| - 1] == a + b' && (a + b)[|a + b| - 1] == x;
      DetectedFacesAppend(a, b', detect);
      assert DetectedFaces(a + b, detect) == DetectedFaces(a + b', detect) + Extracted(x, detect(x));
      assert DetectedFaces(b, detect) == DetectedFaces(b', detect) + Extracted(x, detect(x));
    } else {
      assert a + b == a;
    }
  }

  /** An image in which nothing is detected adds no face and does not stop the others. */
  lemma ImageWithoutFacesAddsNothing(a: seq<Image>, img: Image, b: seq<Image>, detect: Image -> seq<Detection>)
    requires detect(img) == []
    ensures DetectedFaces(a + [img] + b, detect) == DetectedFaces(a + b, detect)
  {
    DetectedFacesAppend(a + [img], b, detect);
    DetectedFacesAppend(a, [img], detect);
    DetectedFacesAppend(a, b, detect);
    assert DetectedFaces([img], detect) == DetectedFaces([], detect) + Extracted(img, detect(img));
  }

  datatype RegisterError =
    | NameRequired   // the name is empty or whitespace only
    | NoImages       // no image was supplied

  /** Face record `fe` is what registration stores for face `f` of person `personId`. */
  ghost predicate StoredAs(fe: Database.FaceEmb, personId: int, f: FaceResult)
  {
    fe.personId == personId && fe.embedding == f.embedding && fe.img == Some(f.crop)
  }

  /** Every row of `before` is still in `after`, unchanged. */
  ghost predicate KeepsRows(before: map<int, Database.FaceEmb>, after: map<int, Database.FaceEmb>)
  {
    forall k :: k in before ==> k in after && after[k] == before[k]
  }

  /** The rows of `after` are those of `before` and those of `ids`. */
  ghost predicate OnlyAdds(before: map<int, Database.FaceEmb>, after: map<int, Database.FaceEmb>, ids: seq<int>)
  {
    forall k :: k in after <==> k in before || k in ids
  }

  /** Row `ids[t]` is new and holds face `fs[t]` of person `personId`. */
  ghost predicate StoresFaces(before: map<int, Database.FaceEmb>, after: map<int, Database.FaceEmb>,
                              ids: seq<int>, personId: int, fs: seq<FaceResult>)
  {
    && |ids| == |fs|
    && forall t :: 0 <= t < |ids| ==> ids[t] !in before && ids[t] in after && StoredAs(after[ids[t]], personId, fs[t])
  }

  /** Each new row has a larger id and a later creation time than the rows before it in `ids`. */
  ghost predicate Ascending(after: map<int, Database.FaceEmb>, ids: seq<int>)
  {
    forall a, b :: 0 <= a < b < |ids| && ids[a] in after && ids[b] in after ==>
      ids[a] < ids[b] && after[ids[a]].createdAt < after[ids[b]].createdAt
  }

  /** Each new row has a larger id and a later creation time than every row of `before`. */
  ghost predicate NewerThanAll(before: map<int, Database.FaceEmb>, after: map<int, Database.FaceEmb>, ids: seq<int>)
  {
    forall k, t :: k in before && 0 <= t < |ids| && ids[t] in after ==>
      k < ids[t] && before[k].createdAt < after[ids[t]].createdAt
  }

  /** Going from face table `before` to `after` stored exactly the faces `fs`, in order,
      under person `personId`, as the fresh rows `ids`, each with a larger id and a later
      creation time than every row stored before it; no earlier row changed. */
  ghost predicate AddedInOrder(before: map<int, Database.FaceEmb>, after: map<int, Database.FaceEmb>,
                               ids: seq<int>, personId: int, fs: seq<FaceResult>)
  {
    && KeepsRows(before, after)
    && OnlyAdds(before, after, ids)
    && StoresFaces(before, after, ids, personId, fs)
    && Ascending(after, ids)
    && NewerThanAll(before, after, ids)
  }

  /** One `add_face`: a fresh row newer than every other, holding face `f`. */
  lemma AddedOne(before: map<int, Database.FaceEmb>, id: int, fe: Database.FaceEmb, personId: int, f: FaceResult)
    requires id !in before && StoredAs(fe, personId, f)
    requires forall k :: k in before ==> k < id && before[k].createdAt < fe.createdAt
    ensures AddedInOrder(before, before[id := fe], [id], personId, [f])
  {
  }

  lemma {:induction false} ChainStores(m0: map<int, Database.FaceEmb>, m1: map<int, Database.FaceEmb>, m2: map<int, Database.FaceEmb>,
                                       ids1: seq<int>, ids2: seq<int>, personId: int, fs1: seq<FaceResult>, fs2: seq<FaceResult>)
    requires KeepsRows(m0, m1) && KeepsRows(m1, m2)
    requires StoresFaces(m0, m1, ids1, personId, fs1) && StoresFaces(m1, m2, ids2, personId, fs2)
    ensures StoresFaces(m0, m2, ids1 + ids2, personId, fs1 + fs2)
  {
    var ids, fs := ids1 + ids2, fs1 + fs2;
    forall t | 0 <= t < |ids|
      ensures ids[t] !in m0 && ids[t] in m2 && StoredAs(m2[ids[t]], personId, fs[t])
    {
      if t < |ids1| {
        assert ids[t] == ids1[t] && fs[t] == fs1[t];
      } else {
        assert ids[t] == ids2[t - |ids1|] && fs[t] == fs2[t - |ids1|];
      }
    }
  }

  lemma {:induction false} ChainOnlyAdds(m0: map<int, Database.FaceEmb>, m1: map<int, Database.FaceEmb>, m2: map<int, Database.FaceEmb>,
                                         ids1: seq<int>, ids2: seq<int>)
    requires OnlyAdds(m0, m1, ids1) && OnlyAdds(m1, m2, ids2)
    ensures OnlyAdds(m0, m2, ids1 + ids2)
  {
    var ids := ids1 + ids2;
    forall k
      ensures k in m2 <==> k in m0 || k in ids
    {
      if k in ids1 {
        var t :| 0 <= t < |ids1| && ids1[t] == k;
        assert ids[t] == k;
      } else if k in ids2 {
        var t :| 0 <= t < |ids2| && ids2[t] == k;
        assert ids[|ids1| + t] == k;
      }
      if k in ids {
        var t :| 0 <= t < |ids| && ids[t] == k;
        if t < |ids1| { assert ids1[t] == k; } else { assert ids2[t - |ids1|] == k; }
      }
    }
  }

  lemma {:induction false} ChainOrder(m0: map<int, Database.FaceEmb>, m1: map<int, Database.FaceEmb>, m2: map<int, Database.FaceEmb>,
                                      ids1: seq<int>, ids2: seq<int>)
    requires KeepsRows(m0, m1) && KeepsRows(m1, m2)
    requires forall t :: 0 <= t < |ids1| ==> ids1[t] in m1
    requires forall t :: 0 <= t < |ids2| ==> ids2[t] in m2
    requires Ascending(m1, ids1) && NewerThanAll(m0, m1, ids1)
    requires Ascending(m2, ids2) && NewerThanAll(m1, m2, ids2)
    ensures Ascending(m2, ids1 + ids2) && NewerThanAll(m0, m2, ids1 + ids2)
  {
    var ids := ids1 + ids2;
    forall a, b | 0 <= a < b < |ids| && ids[a] in m2 && ids[b] in m2
      ensures ids[a] < ids[b] && m2[ids[a]].createdAt < m2[ids[b]].createdAt
    {
      if b < |ids1| {
        assert ids[a] == ids1[a] && ids[b] == ids1[b];
        assert m2[ids[a]] == m1[ids[a]] && m2[ids[b]] == m1[ids[b]];
      } else if a < |ids1| {
        assert ids[a] == ids1[a] && ids[a] in m1 && m2[ids[a]] == m1[ids[a]];
        assert ids[b] == ids2[b - |ids1|];
      } else {
        assert ids[a] == ids2[a - |ids1|] && ids[b] == ids2[b - |ids1|];
      }
    }
    forall k, t | k in m0 && 0 <= t < |ids| && ids[t] in m2
      ensures k < ids[t] && m0[k].createdAt < m2[ids[t]].createdAt
    {
      if t < |ids1| {
        assert ids[t] == ids1[t] && m2[ids[t]] == m1[ids[t]];
      } else {
        assert ids[t] == ids2[t - |ids1|] && k in m1 && m1[k] == m0[k];
      }
    }
  }

  /** Two batches of insertions, one after the other, are one batch. */
  lemma {:induction false} AddedInOrderChain(m0: map<int, Database.FaceEmb>, m1: map<int, Database.FaceEmb>, m2: map<int, Database.FaceEmb>,
                                             ids1: seq<int>, ids2: seq<int>, personId: int, fs1: seq<FaceResult>, fs2: seq<FaceResult>)
    requires AddedInOrder(m0, m1, ids1, personId, fs1)
    requires AddedInOrder(m1, m2, ids2, personId, fs2)
    ensures AddedInOrder(m0, m2, ids1 + ids2, personId, fs1 + fs2)
  {
    ChainStores(m0, m1, m2, ids1, ids2, personId, fs1, fs2);
    ChainOnlyAdds(m0, m1, m2, ids1, ids2);
    ChainOrder(m0, m1, m2, ids1, ids2);
  }

  /** The inner loop of registration: store each face of one image under `personId`. */
  method StoreFaces(store: Database.Store, personId: int, faces: seq<FaceResult>) returns (ids: seq<int>)
    requires store.Valid() && personId in store.persons
    modifies store
    ensures store.Valid() && store.persons == old(store.persons)
    ensures AddedInOrder(old(store.faces), store.faces, ids, personId, faces)
  {
    ids := [];
    for j := 0 to |faces|
      invariant store.Valid()
      invariant store.persons == old(store.persons)
      invariant AddedInOrder(old(store.faces), store.faces, ids, personId, faces[..j])
    {
      ghost var facesPrev := store.faces;
      var fid := store.AddFace(personId, faces[j].embedding, Some(faces[j].crop));
      AddedOne(facesPrev, fid, store.faces[fid], personId, faces[j]);
      AddedInOrderChain(old(store.faces), facesPrev, store.faces, ids, [fid], personId, faces[..j], [faces[j]]);
      assert faces[..j] + [faces[j]] == faces[..j + 1];
      ids := ids + [fid];
    }
    assert faces[..|faces|] == faces;
  }

  /** Registration: validation writes nothing; otherwise the person named `Strip(name)` is
      found or created, and every face detected in every image is stored under it, in
      order (`newFaces`); the count returned is the number of those faces. */
  method Register(store: Database.Store, name: string, info: string, imgs: seq<Image>, detect: Image -> seq<Detection>)
    returns (r: Result<nat, RegisterError>, ghost personId: int, ghost newFaces: seq<int>)
    requires store.Valid()
    modifies store
    ensures store.Valid()
    ensures IsBlank(name) ==> r == Err(NameRequired) && unchanged(store)
    ensures !IsBlank(name) && imgs == [] ==> r == Err(NoImages) && unchanged(store)
    ensures !IsBlank(name) && imgs != [] ==> r.Ok?
    ensures r.Ok? ==>
              && personId in store.persons && store.persons[personId].name == Strip(name)
              && (personId in old(store.persons) ==>
                    store.persons == old(store.persons)[personId := Database.WithInfo(old(store.persons)[personId], InfoArg(info))])
              && (personId !in old(store.persons) ==>
                    && (forall k :: k in old(store.persons) ==> old(store.persons)[k].name != Strip(name))
                    && (forall k :: k in old(store.persons) ==>
                          k < personId && old(store.persons)[k].createdAt < store.persons[personId].createdAt)
                    && store.persons == old(store.persons)[personId := Database.Person(Strip(name), InfoArg(info), store.persons[personId].createdAt)])
    ensures r.Ok? ==>
              && r.value == |DetectedFaces(imgs, detect)|
              && AddedInOrder(old(store.faces), store.faces, newFaces, personId, DetectedFaces(imgs, detect))
  {
    personId, newFaces := 0, [];
    if IsBlank(name) {
      r := Err(NameRequired);
      return;
    }
    if imgs == [] {
      r := Err(NoImages);
      return;
    }
    var pid := store.GetOrCreatePerson(Strip(name), InfoArg(info));
    personId := pid;
    ghost var persons := store.persons;
    ghost var facesBefore := store.faces;
    ghost var flat: seq<FaceResult> := [];
    var added := 0;
    for i := 0 to |imgs|
      invariant store.Valid()
      invariant store.persons == persons && pid in persons
      invariant flat == DetectedFaces(imgs[..i], detect)
      invariant added == |flat|
      invariant AddedInOrder(facesBefore, store.faces, newFaces, pid, flat)
    {
      assert imgs[..i + 1][..i] == imgs[..i];
      var faces := Extract(imgs[i], detect);
      if |faces| == 0 {
        assert flat + faces == flat;
        flat := flat + faces;
        continue;
      }
      ghost var facesMid := store.faces;
      var batch := StoreFaces(store, pid, faces);
      added := added + |batch|;
      AddedInOrderChain(facesBefore, facesMid, store.faces, newFaces, batch, pid, flat, faces);
      newFaces := newFaces + batch;
      flat := flat + faces;
    }
    assert imgs[..|imgs|] == imgs;
    r := Ok(added);
  }
}
