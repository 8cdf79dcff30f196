# Face recognition web app — a verified model of its core

The application keeps a gallery of known faces in SQLite and identifies faces in new
photos. This project models, in Dafny, what it does apart from the neural network and
the web widgets:

- **`face_engine.dfy`** (module `FaceEngine`) covers the engine's deterministic part.
  - The matcher: the dot product of the query with every stored embedding, the
    first-occurrence argmax, and the 0.35 similarity threshold.
  - The face crop with 2 pixels of padding, following numpy's slicing rules, including
    the wrap-round of a negative stop (see "Findings").
  - Normalisation of the detector's age and sex attributes.
  - The `extract` loop that turns detections into face results.
- **`database.dfy`** (module `Database`) covers the person/face store as a class
  `Store` holding two tables (maps from id to row) and a creation clock.
  - Its invariant is the schema: person names are unique, and every face belongs to an
    existing person.
  - The operations are get-or-create, add, the two deletes (deleting a person cascades
    to its faces), and the two listings with their SQL ordering.
- **`app.dfy`** (module `App`) covers the two page flows.
  - Recognition loads the gallery (an inner join of faces and persons), stacks it,
    matches every detected face, and resolves the name and age.
  - Registration validates the name and the image list, gets or creates the person on
    the stripped name, stores every detected face, skips images with none, and counts
    what it stored.
- **`common.dfy`** holds `Option`/`Result` and a few small helpers.

The detector is a function parameter `detect : Image -> seq<Detection>`. Uploaded photos
arrive already decoded as RGB images.

The docstring of `match` (face_engine.py:91) says that below the threshold the result is
`(-1, 0.0)`. The code (face_engine.py:102) returns `(-1, sim)`. The model follows the
code. The constant (-1, 0.0) comes only from the early return for `.size == 0`: no rows,
or rows of width 0.

## Model

| member | source | states |
|---|---|---|
| FaceEngine.Match | face_engine.py:89-102 | An empty gallery (numpy `.size == 0`) gives (-1, 0.0). Otherwise the similarity is one of the row dot products and no row exceeds it. The index is non-negative iff the similarity is at least `SimThreshold` (0.35, line 17), and is otherwise -1. A non-negative index is the first row reaching the maximum. |
| FaceEngine.Similarities | face_engine.py:97 | `db_embs @ query_emb`: one dot product per gallery row, in row order. |
| FaceEngine.ArgMax | face_engine.py:98 | `np.argmax`: the result is a valid index, no element is larger, and every earlier element is strictly smaller (the first maximum). |
| FaceEngine.ZeroWidthGalleryAgrees | face_engine.py:95-102 | For rows of width 0, the early return for `.size == 0` agrees with the general argmax/threshold rule: the best similarity is 0.0, below the threshold, so the index is -1. |
| FaceEngine.TruncToInt | face_engine.py:68 | `astype(int)` truncates toward zero: the result lies within 1 below a non-negative input and within 1 above a negative one. |
| FaceEngine.PySlice | face_engine.py:38 | A Python/numpy slice: its length and its elements after a negative bound counts from the end and bounds are clamped to the sequence. |
| FaceEngine.CropWindow | face_engine.py:32-37 | The clamped corners satisfy: x1 and y1 are at least 0, x2 and y2 at most the width and height, and no corner is more than `pad` outside the box. Along each axis, a coordinate is in the window iff it is in the padded box and in the image. |
| FaceEngine.CropBboxRgb | face_engine.py:31-38 | The crop as written. Whenever the padded right and bottom edges are non-negative it equals the intended crop `CropBboxRgbClamped`. |
| FaceEngine.CropBboxRgbClamped | face_engine.py:31-38 | The intended crop. Its height and width are the overlap of the padded box with the image, and each pixel is the image pixel at the clamped offset. |
| FaceEngine.CropWrapsForBoxLeftOfImage | face_engine.py:36-38 | On a 1x10 image, the box (-6,0,-4,1) padded by 2 yields an 8-pixel-wide crop as written, where the intended crop is empty. |
| FaceEngine.AgeOf | face_engine.py:71 | A missing age stays missing. A present age becomes an int by truncation toward zero, and negative values are kept. |
| FaceEngine.AgeOfInteger | face_engine.py:71 | An integral age, negative ones included, is reported unchanged. |
| FaceEngine.GenderOf | face_engine.py:72-77 | A missing sex gives no gender, and a string label passes through. A numeric code gives "male" or "female", and "male" exactly when the code equals 1. |
| FaceEngine.Extract | face_engine.py:61-87 | One result per detection, in detection order. Each result has the truncated box, the score, the embedding, the normalised age and gender, and the padded crop exactly as `crop_bbox_rgb` is written (`CropBboxRgb`, wrap-round included). |
| Database.NameBeforeIrreflexive | database.py:64 | The `ORDER BY name ASC` comparison (code-point order) never puts a name before itself. |
| Database.NameBeforeTotal | database.py:64 | Of two different names, one comes before the other. |
| Database.NameBeforeTransitive | database.py:64 | The name order is transitive, so a sorted listing is well defined. |
| Database.NextRowId | database.py:19 | A new INTEGER PRIMARY KEY is fresh, larger than every existing id, and is 1 or one more than an existing id: max + 1, or 1 in an empty table, for the positive ids a store holds (`Valid()` keeps every id positive). |
| Database.WithInfo | database.py:41-44 | Re-registering keeps the name and creation time. The note is replaced exactly when the new one is non-empty, and the person changes iff that note differs from the stored one. |
| Database.Store.Valid | database.py:17-34 | The schema: person names are unique (database.py:20), and every face's person exists (the NOT NULL foreign key, database.py:29). It also holds facts that are model assumptions, not schema: ids are positive, no creation time exceeds the clock, and face creation times are distinct. |
| Database.Store.constructor | database.py:36-37 | A fresh database has both tables empty and satisfies the schema invariant. |
| Database.Store.FindPersonByName | database.py:40 | It returns the person with that name if there is one, and reports None only when no person has it. |
| Database.Store.GetOrCreatePerson | database.py:39-50 | For an existing name, the same id comes back with only the note possibly updated. Otherwise exactly one person is added under a fresh, larger id, and only when no person has the name. Faces are untouched, and names stay unique. |
| Database.Store.AddFace | database.py:52-57 | Exactly one face row is added, under a fresh id, with the given person, embedding and crop. It is newer than every other face, persons are untouched, and the schema invariant holds. |
| Database.Store.DeletePerson | database.py:76-80 | The person is removed together with exactly the faces it owned (the cascade at database.py:24). All other rows are unchanged, and an unknown id changes nothing. |
| Database.Store.DeleteFace | database.py:82-86 | Exactly that face is removed (nothing, for an unknown id), and persons are unchanged. |
| Database.Store.ListPersonsWithCounts | database.py:59-66 | Each row is a stored person with the number of faces it owns. Every person appears, including those with no faces (the outer join), ids do not repeat, and rows are in ascending name order. |
| Database.Store.ListFacesForPerson | database.py:68-70 | Exactly the faces owned by the person, each row matching the table, newest first. |
| Database.CountsAccountForEveryFace | database.py:59-66 | In a listing with the properties above, the counts add up to the number of faces: every face is counted once. |
| App.LoadGallery | app.py:50-57 | The embedding list and `meta` are parallel. Row i is the embedding of the face `meta[i]` names, with its owner's id and name. Every face whose person exists appears exactly once. |
| App.Stack | app.py:58-61 | Stacking keeps the rows and gives a well-shaped matrix. No rows gives the empty (0, 512) matrix. It fails exactly when two rows differ in length. |
| App.ReportFor | app.py:72-76 | One face's report keeps the box and gender and reports the age as `ReportedAge` does. An empty gallery, or a similarity below the threshold, gives the name "Unknown". Any other name is the name of a gallery entry. For a non-empty gallery the similarity is one of the row similarities and none exceeds it, and at or above the threshold the name is that of the first gallery entry reaching it (`meta[idx]["name"]`). |
| App.InfoArg | app.py:125 | `info.strip() if info else None`: no note exactly when the field is empty. A note is already stripped, and an empty note means the field was all whitespace. |
| App.IsSpace | app.py:119 | The characters `str.strip()` removes: those for which Python's `str.isspace()` holds. |
| App.ReportedAge | app.py:89 | An age is reported iff it is present and non-negative, and then unchanged. |
| App.Recognize | app.py:44-91 | The gallery is loaded as `LoadGallery` states. A stacking failure and a query/gallery length mismatch are reported as errors exactly when they occur. Otherwise there is one report per detected face, in order, each matched against the whole gallery. |
| App.ReportNamesBestStoredFace | app.py:71-76 | A resolved name is that of the owner of a stored face at least as similar as every other stored face, with similarity at or above the threshold. A negative match index gives "Unknown" and means every stored face scores below the threshold. (A person may itself be registered as "Unknown", so the name alone does not tell.) |
| App.Strip | app.py:119 | `str.strip()`: the result is empty iff the input is all whitespace, and a non-empty result neither starts nor ends with whitespace. |
| App.StripRemovesOnlyOuterWhitespace | app.py:119-125 | The stripped string is a contiguous piece of the input, and everything before and after that piece is whitespace: only leading and trailing whitespace is removed. |
| App.InfoArgIsTheTrimmedField | app.py:125 | The note passed for a non-empty field is a contiguous piece of it with only whitespace before and after: `info.strip()`. |
| App.StripIdempotent | app.py:119-125 | Stripping twice is stripping once, so the name stored is already stripped. |
| App.DetectedFacesAppend | app.py:127-138 | The faces detected in a concatenation of image lists are those of the first list followed by those of the second. |
| App.ImageWithoutFacesAddsNothing | app.py:130-132 | An image with no detected face contributes nothing, and the images around it are still processed. |
| App.AddedInOrderChain | app.py:134-138 | Two batches of face insertions made one after the other form one batch. Its new ids strictly increase and so do their creation times, every new row is newer than and has a larger id than every earlier row, and no earlier row changes. |
| App.StoreFaces | app.py:134-138 | Each face of one image is stored under the person, in detection order. Each new row has a larger id and a later creation time than every row stored before it, earlier ones in the same batch included. Persons and earlier faces are unchanged, and the schema invariant holds. |
| App.Register | app.py:118-139 | A blank name or an empty image list is an error that writes nothing. Otherwise the person named by the stripped name is found (note updated as `WithInfo` states) or created; a created person has a larger id and a later creation time than every existing person. Every face detected in every image is stored under that person in order. Each new face row has a larger id and a later creation time than every row stored before it. Earlier faces are untouched, and the count returned is the number stored. |

## Left out

- The detection and recognition network (InsightFace) is the parameter `detect`. Its
  embeddings are taken as given, and `l2_normalize` and `normed_embedding` are not
  modelled, because they are floating-point computations inside or beside the network.
- FaceEngine.Match: similarities are exact real dot products, so float32 rounding and the
  order of summation are not modelled.
- Embeddings are stored as float32 bytes and read back bit for bit, so
  `tobytes`/`frombuffer` are the identity here. The float32 cast is not modelled.
- The colour conversions (`pil_to_bgr`, `cvtColor`) and image decoding are not
  modelled: images arrive as RGB pixel grids.
- `rgb_to_bytes` (JPEG encoding) is not modelled: a face result and a stored face keep the
  cropped image itself.
- FaceEngine.Extract: the landmark points (`kps`) are not carried, because nothing in the
  core reads them.
- App.Recognize: the similarity is not rounded to 4 decimals, because decimal formatting
  of binary floats is not modelled.
- App.Recognize: drawing boxes and labels on the photo is left out, as is all display.
- The Streamlit widgets, the page layout and the "Database" tab are left out, because
  they are presentation.
- Sessions, connections and `init_db` are left out. A fresh `Store` stands for an empty,
  initialised database, and each commit is one atomic update.
- `all_faces` is left out: it is not used by the flows modelled here.
- The `String(120)`/`String(250)` lengths are not enforced, because SQLite does not
  enforce declared VARCHAR lengths.
- Database.Store.AddFace: requires that the person exists. This is the declared foreign
  key, which the model keeps as an invariant. SQLite enforces foreign keys only when
  `PRAGMA foreign_keys` is on, and the source never sets it; the application only calls
  `add_face` with a person it has just fetched or created.
- The creation time (`utcnow`) is a counter that increases with every insertion. Wall
  clock ties are not modelled.
- Database.Store.ListFacesForPerson: its strict newest-first order relies on the distinct
  creation times above.
- The gallery's row order (a join without ORDER BY) is whatever order the loop visits
  the faces in. `Recognize` returns the gallery it loaded, in the order it used.
- Database failures, exceptions raised by a commit, and concurrent sessions are not
  modelled.

## Findings

`FaceEngine.Extract` uses the crop as written, so registration stores the wrapped crop
the source stores. `FaceEngine.CropBboxRgbClamped` states the intended crop. The empty crop it
gives in such a case would next reach `rgb_to_bytes` (face_engine.py:70). JPEG encoding is not
part of this model, so what that call does with an empty image was not examined.

| source | as written | input that shows it | evidently intended | confidence | as-written member | corrected member |
|---|---|---|---|---|---|---|
| face_engine.py:36-38 | `x2 = min(x2 + pad, w)` can stay negative. `img_rgb[y1:y2, x1:x2]` then counts that negative stop from the end of the axis, so the crop wraps round. The same holds for y2. | A box wholly left of the image, e.g. (-6, 0, -4, 1) with pad 2 on a 1x10 image, gives an 8-pixel-wide crop. | The padded box intersected with the image: here an empty crop. | not executed | FaceEngine.CropWrapsForBoxLeftOfImage | FaceEngine.CropBboxRgbClamped |
