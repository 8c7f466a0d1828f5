/**
 * The decisions app/routes/resources.py makes around its collaborators: which title,
 * category and link a new resource is stored with (`nuevo`), and how the ids and scores
 * the vector store returns are joined with database rows into the list of search
 * results (`buscar_semantico`). The form is a map from field name to submitted text;
 * the IPFS upload, the NLP model, the vector store and the database are parameters.
 */
module Resources {
  import opened Common

  /** The NLP model's embedding vector (float32 values in the program, reals here). */
  type Embedding = seq<real>

  // ---------------------------------------------------------------- str.strip()

  /** Python's str.isspace for one character: the ASCII and the Unicode white space. */
  predicate IsSpace(c: char)
  {
    c == ' ' || ('\t' <= c <= '\r') || ('\U{1C}' <= c <= '\U{1F}') || c == '\U{85}' || c == '\U{A0}'
    || c == '\U{1680}' || ('\U{2000}' <= c <= '\U{200A}') || c == '\U{2028}' || c == '\U{2029}'
    || c == '\U{202F}' || c == '\U{205F}' || c == '\U{3000}'
  }

  /** str.lstrip(): the longest suffix that does not start with white space. */
  function TrimStart(s: string): (r: string)
    ensures |r| <= |s| && r == s[|s| - |r|..]
    ensures forall k | 0 <= k < |s| - |r| :: IsSpace(s[k])
    ensures r == [] || !IsSpace(r[0])
  {
    if s != [] && IsSpace(s[0]) then TrimStart(s[1..]) else s
  }

  /** str.rstrip(): the longest prefix that does not end with white space. */
  function TrimEnd(s: string): (r: string)
    ensures |r| <= |s| && r == s[..|r|]
    ensures forall k | |r| <= k < |s| :: IsSpace(s[k])
    ensures r == [] || !IsSpace(r[|r| - 1])
  {
    if s != [] && IsSpace(s[|s| - 1]) then TrimEnd(s[..|s| - 1]) else s
  }

  /** str.strip(): white space removed from both ends. */
  function Strip(s: string): string
  {
    TrimEnd(TrimStart(s))
  }

  /** Where the piece strip() keeps begins: after the leading white space. */
  function StripStart(s: string): nat
  {
    |s| - |TrimStart(s)|
  }

  /** What strip() keeps is the contiguous piece of s that starts at StripStart(s). */
  lemma StripShape(s: string)
    ensures StripStart(s) + |Strip(s)| <= |s|
    ensures forall k | 0 <= k < |Strip(s)| :: Strip(s)[k] == s[StripStart(s) + k]
  {
    var t := TrimStart(s);
    var r := TrimEnd(t);
    forall k | 0 <= k < |r| ensures r[k] == s[StripStart(s) + k] {
      assert r[k] == t[k];
    }
  }

  /** Everything strip() removes, before and after the piece it keeps, is white space. */
  lemma StripMargins(s: string)
    ensures forall k | 0 <= k < StripStart(s) :: IsSpace(s[k])
    ensures forall k | StripStart(s) + |Strip(s)| <= k < |s| :: IsSpace(s[k])
  {
    var t := TrimStart(s);
    var r := TrimEnd(t);
    forall k | StripStart(s) + |r| <= k < |s| ensures IsSpace(s[k]) {
      assert s[k] == t[k - StripStart(s)];
    }
  }

  /** The piece strip() keeps starts and ends with a character other than white space. */
  lemma StripEnds(s: string)
    ensures Strip(s) == [] || (!IsSpace(Strip(s)[0]) && !IsSpace(Strip(s)[|Strip(s)| - 1]))
  {
    var t := TrimStart(s);
    var r := TrimEnd(t);
    if r != [] {
      assert r[0] == t[0];
    }
  }

  /** A field is blank after strip() exactly when it holds only white space. */
  lemma StripEmptyIff(s: string)
    ensures Strip(s) == "" <==> forall k | 0 <= k < |s| :: IsSpace(s[k])
  {
    if forall k | 0 <= k < |s| :: IsSpace(s[k]) {
    } else {
      StripShape(s);
      StripMargins(s);
    }
  }

  /** Stripping twice is stripping once. */
  lemma StripIdempotent(s: string)
    ensures Strip(Strip(s)) == Strip(s)
  {
    var r := Strip(s);
    StripEnds(s);
    if r != [] {
      assert TrimStart(r) == r;
      assert TrimEnd(r) == r;
    }
  }

  // ---------------------------------------------------------------- nuevo

  /** request.form.get(key, ''): a missing field reads as the empty string. */
  function Field(form: map<string, string>, key: string): string
  {
    if key in form then form[key] else ""
  }

  /** `text or None`: the empty string becomes None. */
  function NonBlank(text: string): (o: Option<string>)
    ensures o.None? <==> text == ""
    ensures o.Some? ==> o.value == text
  {
    if text == "" then None else Some(text)
  }

  /** The uploaded file part, if the form had one; its filename may be missing. */
  datatype Upload = Upload(filename: Option<string>, content: Bytes)

  /** `file and file.filename`: a file part with a non-empty filename. */
  predicate HasFile(file: Option<Upload>)
  {
    file.Some? && file.value.filename.Some? && file.value.filename.value != ""
  }

  /** upload_to_ipfs: the CID and gateway URL (both None when no CID came back), or an error. */
  datatype Pin = Pinned(cid: Option<string>, url: Option<string>) | PinFailed(error: string)

  /**
   * The NLP collaborators: clasificar_texto, generar_embedding and embedding_to_blob,
   * each None where it raises.
   */
  datatype Nlp = Nlp(classify: string -> Option<string>,
                     embed: string -> Option<Embedding>,
                     toBlob: Embedding -> Option<Bytes>)

  datatype Flash = Flash(message: string, category: string)

  /** The values of the INSERT INTO recursos statement. */
  datatype Row = Row(titulo: string, descripcion: string, categoria: string, enlace: Option<string>,
                     cid: Option<string>, filename: Option<string>, embedding: Option<Bytes>, userId: int)

  /** What add_embedding_to_chroma receives besides the new row's id. */
  datatype VectorEntry = VectorEntry(embedding: Embedding, titulo: string, categoria: string)

  /** How a POST to /nuevo ends. */
  datatype Submission =
    | Rejected(flash: Flash)                                           // missing title
    | Aborted(flash: Flash)                                            // the upload raised
    | Saved(row: Row, indexed: Option<VectorEntry>, flash: Flash)      // inserted

  const TitleRequired := Flash("El título es un campo obligatorio.", "error")
  const Unclassified := "Sin clasificar"
  const NlpWarning := Flash("Recurso guardado, pero ocurrió un error al clasificarlo automáticamente.", "warning")

  /** The outcome of the try block around the NLP calls. */
  datatype Analysis = Analysis(categoria: string, vector: Option<Embedding>, blob: Option<Bytes>, flash: Flash)

  /**
   * The try block: the manual category or else the classifier's, then the embedding and
   * its blob. If any call raises, the category falls back to the manual one or
   * "Sin clasificar" and no blob is kept; an embedding computed before the blob step
   * raised is still kept, because it was already assigned.
   */
  function Analyse(nlp: Nlp, text: string, manual: Option<string>): Analysis
  {
    var detected := if manual.Some? then manual else nlp.classify(text);
    var fallback := if manual.Some? then manual.value else Unclassified;
    if detected.None? then Analysis(fallback, None, None, NlpWarning)
    else match nlp.embed(text)
      case None => Analysis(fallback, None, None, NlpWarning)
      case Some(v) =>
        match nlp.toBlob(v)
        case None => Analysis(fallback, Some(v), None, NlpWarning)
        case Some(b) => Analysis(detected.value, Some(v), Some(b),
                                 Flash("Recurso guardado y clasificado: " + detected.value, "success"))
  }

  /** Insert the row, and index the embedding when one was produced. */
  function Store(nlp: Nlp, titulo: string, descripcion: string, manual: Option<string>, link: Option<string>,
                 cid: Option<string>, filename: Option<string>, userId: int): Submission
  {
    var a := Analyse(nlp, titulo + " " + descripcion, manual);
    Saved(Row(titulo, descripcion, a.categoria, link, cid, filename, a.blob, userId),
          if a.vector.Some? then Some(VectorEntry(a.vector.value, titulo, a.categoria)) else None,
          a.flash)
  }

  /** The four text fields nuevo reads, each stripped. */
  datatype Fields = Fields(titulo: string, descripcion: string, enlace: string, categoria: string)

  function ReadForm(form: map<string, string>): Fields
  {
    Fields(Strip(Field(form, "titulo")), Strip(Field(form, "descripcion")),
           Strip(Field(form, "enlace")), Strip(Field(form, "categoria")))
  }

  /**
   * The POST branch of nuevo on the stripped fields: refuse a blank title, upload the
   * file if there is one (aborting when the upload raises), then analyse the text and
   * insert the row.
   */
  function Submit(f: Fields, file: Option<Upload>, userId: int, ipfs: (Bytes, string) -> Pin, nlp: Nlp): Submission
  {
    if f.titulo == "" then Rejected(TitleRequired)
    else
      var manual := NonBlank(f.categoria);
      if HasFile(file) then
        var filename := file.value.filename.value;
        match ipfs(file.value.content, filename)
        case PinFailed(e) => Aborted(Flash("Error subiendo a IPFS: " + e, "error"))
        case Pinned(cid, url) => Store(nlp, f.titulo, f.descripcion, manual, url, cid, Some(filename), userId)
      else
        Store(nlp, f.titulo, f.descripcion, manual, NonBlank(f.enlace), None, None, userId)
  }

  /** POST /nuevo: read and strip the form, then submit. */
  function CreateResource(form: map<string, string>, file: Option<Upload>, userId: int,
                          ipfs: (Bytes, string) -> Pin, nlp: Nlp): Submission
  {
    Submit(ReadForm(form), file, userId, ipfs, nlp)
  }

  /** A title that is blank after strip() is refused, and only then; nothing is inserted. */
  lemma BlankTitleRejected(f: Fields, file: Option<Upload>, userId: int,
                           ipfs: (Bytes, string) -> Pin, nlp: Nlp)
    ensures Submit(f, file, userId, ipfs, nlp).Rejected? <==> f.titulo == ""
    ensures f.titulo == "" ==> Submit(f, file, userId, ipfs, nlp) == Rejected(TitleRequired)
  {
  }

  /** The request aborts without an insert exactly when a file was sent and its upload raised. */
  lemma FailedUploadAborts(f: Fields, file: Option<Upload>, userId: int,
                           ipfs: (Bytes, string) -> Pin, nlp: Nlp)
    ensures Submit(f, file, userId, ipfs, nlp).Aborted?
            <==> f.titulo != "" && HasFile(file) && ipfs(file.value.content, file.value.filename.value).PinFailed?
  {
  }

  /**
   * An inserted row carries the stripped title and description and the user's id; its
   * link is the upload's gateway URL when a file was sent (even when that URL is None),
   * and otherwise the manual link, a blank one meaning none.
   */
  lemma StoredFields(f: Fields, file: Option<Upload>, userId: int,
                     ipfs: (Bytes, string) -> Pin, nlp: Nlp)
    requires Submit(f, file, userId, ipfs, nlp).Saved?
    ensures var row := Submit(f, file, userId, ipfs, nlp).row;
      && row.titulo == f.titulo && row.titulo != ""
      && row.descripcion == f.descripcion
      && row.userId == userId
      && (HasFile(file) ==>
            var pin := ipfs(file.value.content, file.value.filename.value);
            row.enlace == pin.url && row.cid == pin.cid && row.filename == file.value.filename)
      && (!HasFile(file) ==> row.enlace == NonBlank(f.enlace) && row.cid == None && row.filename == None)
  {
  }

  /**
   * The stored category: the manual one when it is not blank; otherwise the classifier's
   * when classification, embedding and serialisation all succeeded; otherwise
   * "Sin clasificar".
   */
  lemma CategoryPrecedence(f: Fields, file: Option<Upload>, userId: int,
                           ipfs: (Bytes, string) -> Pin, nlp: Nlp)
    requires Submit(f, file, userId, ipfs, nlp).Saved?
    ensures var text := f.titulo + " " + f.descripcion;
      Submit(f, file, userId, ipfs, nlp).row.categoria ==
        if f.categoria != "" then f.categoria
        else if nlp.classify(text).Some? && nlp.embed(text).Some? && nlp.toBlob(nlp.embed(text).value).Some?
        then nlp.classify(text).value
        else Unclassified
  {
  }

  /**
   * The vector store gets an entry exactly when an embedding was computed (the category
   * came from the form or the classifier, and the embedding model succeeded), holding
   * that embedding with the stored title and category. A blob is stored only alongside
   * such an entry, and is the serialisation of its embedding.
   */
  lemma IndexedIffEmbedded(f: Fields, file: Option<Upload>, userId: int,
                           ipfs: (Bytes, string) -> Pin, nlp: Nlp)
    requires Submit(f, file, userId, ipfs, nlp).Saved?
    ensures var r := Submit(f, file, userId, ipfs, nlp);
      var text := f.titulo + " " + f.descripcion;
      && (r.indexed.Some? <==> (f.categoria != "" || nlp.classify(text).Some?) && nlp.embed(text).Some?)
      && (r.indexed.Some? ==> r.indexed.value == VectorEntry(nlp.embed(text).value, r.row.titulo, r.row.categoria))
      && (r.row.embedding.Some? ==> r.indexed.Some? && r.row.embedding == nlp.toBlob(r.indexed.value.embedding))
  {
  }

  /** With a manual category the classifier is never consulted: replacing it changes nothing. */
  lemma ManualCategorySkipsClassifier(f: Fields, file: Option<Upload>, userId: int,
                                      ipfs: (Bytes, string) -> Pin, nlp: Nlp, other: string -> Option<string>)
    requires f.categoria != ""
    ensures Submit(f, file, userId, ipfs, nlp) == Submit(f, file, userId, ipfs, nlp.(classify := other))
  {
  }

  /**
   * At the level of the raw form: the request is refused exactly when the submitted
   * title is nothing but white space (or missing).
   */
  lemma BlankTitleField(form: map<string, string>, file: Option<Upload>, userId: int,
                        ipfs: (Bytes, string) -> Pin, nlp: Nlp)
    ensures CreateResource(form, file, userId, ipfs, nlp).Rejected?
            <==> forall k | 0 <= k < |Field(form, "titulo")| :: IsSpace(Field(form, "titulo")[k])
  {
    StripEmptyIff(Field(form, "titulo"));
    BlankTitleRejected(ReadForm(form), file, userId, ipfs, nlp);
  }

  // ---------------------------------------------------------------- buscar_semantico

  /** ', '.join('?' for _ in ids): one question mark per id, separated by ", ". */
  function Placeholders(n: nat): (p: string)
    ensures |p| == if n == 0 then 0 else 3 * n - 2
    ensures forall k | 0 <= k < |p| :: p[k] == if k % 3 == 0 then '?' else if k % 3 == 1 then ',' else ' '
  {
    if n <= 1 then (if n == 0 then "" else "?") else Placeholders(n - 1) + ", ?"
  }

  /** How many times c occurs in s. */
  function Occurrences(c: char, s: string): nat
  {
    if s == [] then 0 else (if s[0] == c then 1 else 0) + Occurrences(c, s[1..])
  }

  lemma {:induction false} OccurrencesAppend(c: char, a: string, b: string)
    ensures Occurrences(c, a + b) == Occurrences(c, a) + Occurrences(c, b)
    decreases |a|
  {
    if a == [] {
      assert a + b == b;
    } else {
      assert (a + b)[0] == a[0];
      assert (a + b)[1..] == a[1..] + b;
      OccurrencesAppend(c, a[1..], b);
    }
  }

  /** The IN (...) list has exactly one placeholder per id. */
  lemma {:induction false} PlaceholderCount(n: nat)
    ensures Occurrences('?', Placeholders(n)) == n
  {
    if n == 1 {
      assert Occurrences('?', "?") == 1 by { assert "?"[1..] == ""; }
    } else if n > 1 {
      PlaceholderCount(n - 1);
      OccurrencesAppend('?', Placeholders(n - 1), ", ?");
      assert Occurrences('?', ", ?") == 1 by {
        assert ", ?"[1..] == " ?";
        assert " ?"[1..] == "?";
        assert "?"[1..] == "";
      }
    }
  }

  /** b with some elements deleted and the rest in their order. */
  predicate IsSubsequence(a: seq<string>, b: seq<string>)
    decreases |b|
  {
    if a == [] then true
    else if b == [] then false
    else (a[|a| - 1] == b[|b| - 1] && IsSubsequence(a[..|a| - 1], b[..|b| - 1]))
         || IsSubsequence(a, b[..|b| - 1])
  }

  lemma SubsequenceExtend(a: seq<string>, b: seq<string>, x: string)
    requires IsSubsequence(a, b)
    ensures IsSubsequence(a, b + [x])
    ensures IsSubsequence(a + [x], b + [x])
  {
    assert (b + [x])[..|b|] == b;
    assert (a + [x])[..|a|] == a;
  }

  /**
   * The ids the merge keeps: those with a database row, in the vector store's order.
   * No id is invented and none with a row is dropped.
   */
  function Kept<R>(ids: seq<string>, fetched: map<string, R>): (kept: seq<string>)
    ensures |kept| <= |ids|
    ensures forall x :: x in kept <==> x in ids && x in fetched
    ensures IsSubsequence(kept, ids)
    decreases |ids|
  {
    if ids == [] then []
    else
      var n := |ids| - 1;
      var init := Kept(ids[..n], fetched);
      assert ids == ids[..n] + [ids[n]];
      SubsequenceExtend(init, ids[..n], ids[n]);
      if ids[n] in fetched then init + [ids[n]] else init
  }

  /** Kept keeps each id with a row as many times as it occurs, and no other id. */
  lemma {:induction false} KeptCounts<R>(ids: seq<string>, fetched: map<string, R>)
    ensures forall x :: multiset(Kept(ids, fetched))[x] == if x in fetched then multiset(ids)[x] else 0
    decreases |ids|
  {
    if ids != [] {
      var n := |ids| - 1;
      KeptCounts(ids[..n], fetched);
      assert ids == ids[..n] + [ids[n]];
      assert multiset(ids) == multiset(ids[..n]) + multiset{ids[n]};
    }
  }

  /** No later position of ids holds the id at position i. */
  predicate LastAt(ids: seq<string>, i: int)
    requires 0 <= i < |ids|
  {
    forall j | i < j < |ids| :: ids[j] != ids[i]
  }

  /** A last occurrence before the final position is a last occurrence in the prefix too. */
  lemma LastAtPrefix(ids: seq<string>, i: int)
    requires 0 <= i < |ids| - 1 && LastAt(ids, i)
    ensures LastAt(ids[..|ids| - 1], i) && ids[|ids| - 1] != ids[i]
  {
  }

  /**
   * The 'score' key of each fetched row once the loop is over. The loop writes into the
   * row dictionaries themselves, so a row whose id comes back more than once keeps the
   * score of its last occurrence.
   */
  function LastScores<R>(ids: seq<string>, scores: seq<real>, fetched: map<string, R>): (m: map<string, real>)
    requires |ids| <= |scores|
    ensures forall x :: x in m <==> x in ids && x in fetched
    ensures forall i | 0 <= i < |ids| && ids[i] in fetched && LastAt(ids, i) :: m[ids[i]] == scores[i]
    decreases |ids|
  {
    if ids == [] then map[]
    else
      var n := |ids| - 1;
      var m0 := LastScores(ids[..n], scores, fetched);
      var m := if ids[n] in fetched then m0[ids[n] := scores[n]] else m0;
      assert forall i | 0 <= i < n && LastAt(ids, i) :: LastAt(ids[..n], i) && ids[n] != ids[i] by {
        forall i | 0 <= i < n && LastAt(ids, i) ensures LastAt(ids[..n], i) && ids[n] != ids[i] {
          LastAtPrefix(ids, i);
        }
      }
      assert ids == ids[..n] + [ids[n]];
      m
  }

  /** A search result: the row as a dictionary with the 'score' key added. */
  datatype Scored<R> = Scored(row: R, score: real)

  /** The merged list as it is rendered: each kept row, in order, with its final score. */
  function Merged<R>(ids: seq<string>, scores: seq<real>, fetched: map<string, R>): seq<Scored<R>>
    requires |ids| <= |scores|
  {
    var kept := Kept(ids, fetched);
    var m := LastScores(ids, scores, fetched);
    seq(|kept|, k requires 0 <= k < |kept| => Scored(fetched[kept[k]], m[kept[k]]))
  }

  /**
   * The merge loop of buscar_semantico: walk the ids in order, skip those without a
   * row, set the row's score and append the row. `appended` are the rows appended (by
   * id) and `score` the 'score' key written into each row so far.
   */
  method Merge<R>(ids: seq<string>, scores: seq<real>, fetched: map<string, R>) returns (results: seq<Scored<R>>)
    requires |ids| <= |scores|
    ensures results == Merged(ids, scores, fetched)
  {
    var appended: seq<string> := [];
    var score: map<string, real> := map[];
    for i := 0 to |ids|
      invariant appended == Kept(ids[..i], fetched)
      invariant score == LastScores(ids[..i], scores, fetched)
    {
      assert ids[..i + 1][..i] == ids[..i];
      if ids[i] in fetched {
        score := score[ids[i] := scores[i]];
        appended := appended + [ids[i]];
      }
    }
    assert ids[..|ids|] == ids;
    results := seq(|appended|, k requires 0 <= k < |appended| => Scored(fetched[appended[k]], score[appended[k]]));
  }

  /**
   * What the merged list holds: one entry per kept id, in the order of the ids, each the
   * row of that id; only ids with a row, and every such id as often as it occurs; never
   * more than the ids.
   */
  lemma MergedMeaning<R>(ids: seq<string>, scores: seq<real>, fetched: map<string, R>)
    requires |ids| <= |scores|
    ensures var kept := Kept(ids, fetched); var r := Merged(ids, scores, fetched);
      && |r| == |kept| <= |ids|
      && IsSubsequence(kept, ids)
      && (forall k | 0 <= k < |kept| :: kept[k] in fetched && r[k].row == fetched[kept[k]])
      && (forall x :: x in kept <==> x in ids && x in fetched)
      && (forall x :: multiset(kept)[x] == if x in fetched then multiset(ids)[x] else 0)
  {
    KeptCounts(ids, fetched);
  }

  /**
   * With distinct ids (as the vector store returns them) the i-th id, when it has a row,
   * appears in the results as that row with the i-th score.
   */
  lemma DistinctIdsOwnScores<R>(ids: seq<string>, scores: seq<real>, fetched: map<string, R>)
    requires |ids| <= |scores|
    requires forall i, j | 0 <= i < j < |ids| :: ids[i] != ids[j]
    ensures forall i | 0 <= i < |ids| && ids[i] in fetched ::
      Scored(fetched[ids[i]], scores[i]) in Merged(ids, scores, fetched)
  {
    var kept := Kept(ids, fetched);
    var r := Merged(ids, scores, fetched);
    forall i | 0 <= i < |ids| && ids[i] in fetched
      ensures Scored(fetched[ids[i]], scores[i]) in r
    {
      assert LastAt(ids, i);
      var k :| 0 <= k < |kept| && kept[k] == ids[i];
      assert r[k] == Scored(fetched[ids[i]], scores[i]);
    }
  }

  /**
   * The aliasing made concrete: if the store returns one id twice, both entries are the
   * same row and both show the second score.
   */
  lemma RepeatedIdSharesLastScore<R>(id: string, row: R, first: real, second: real)
    ensures Merged([id, id], [first, second], map[id := row]) == [Scored(row, second), Scored(row, second)]
  {
    var ids := [id, id];
    var fetched := map[id := row];
    assert ids[..1] == [id];
    assert [id][..0] == [];
    assert Kept([id], fetched) == [id];
    assert Kept(ids, fetched) == [id, id];
    assert LastScores([id], [first, second], fetched) == map[id := first];
    var m := LastScores(ids, [first, second], fetched);
    assert m == map[id := second];
    var r := Merged(ids, [first, second], fetched);
    assert |r| == 2 && r[0] == Scored(row, m[id]) && r[1] == Scored(row, m[id]);
  }

  /** A vector-store answer: a resource id (as a string) and its similarity score. */
  datatype Hit = Hit(id: string, score: real)

  datatype SearchOutcome<R> =
    | EmptyQuery(flash: Flash)                          // blank query, the form again
    | EmbeddingFailed                                   // generar_embedding raised
    | Results(query: string, results: seq<Scored<R>>)

  /** SELECT * FROM recursos WHERE id IN (...), keyed by the row id as a string. */
  function Fetch<R>(db: map<string, R>, ids: seq<string>): (fetched: map<string, R>)
    ensures forall x :: x in fetched <==> x in db && x in ids
    ensures forall x | x in fetched :: fetched[x] == db[x]
  {
    map x | x in db && x in ids :: db[x]
  }

  /**
   * POST /buscar_semantico: a blank query is refused; otherwise the query is embedded,
   * the store asked for the top_k nearest resources, and, unless it found none, their
   * rows fetched and merged with the scores.
   */
  method Search<R>(query: string, topK: int, embed: string -> Option<Embedding>,
                   similar: (Embedding, int) -> seq<Hit>, db: map<string, R>) returns (out: SearchOutcome<R>)
    ensures out.EmptyQuery? <==> Strip(query) == ""
    ensures out.EmbeddingFailed? <==> Strip(query) != "" && embed(Strip(query)).None?
    ensures out.Results? ==>
      var hits := similar(embed(Strip(query)).value, topK);
      var ids := seq(|hits|, k requires 0 <= k < |hits| => hits[k].id);
      var scores := seq(|hits|, k requires 0 <= k < |hits| => hits[k].score);
      && out.query == Strip(query)
      && (hits == [] ==> out.results == [])
      && out.results == Merged(ids, scores, Fetch(db, ids))
  {
    var q := Strip(query);
    if q == "" {
      return EmptyQuery(Flash("Por favor, introduce una consulta para buscar.", "error"));
    }
    var e := embed(q);
    if e.None? {
      return EmbeddingFailed;
    }
    var hits := similar(e.value, topK);
    var ids := seq(|hits|, k requires 0 <= k < |hits| => hits[k].id);
    var scores := seq(|hits|, k requires 0 <= k < |hits| => hits[k].score);
    if ids == [] {
      return Results(q, []);
    }
    var results := Merge(ids, scores, Fetch(db, ids));
    return Results(q, results);
  }
}
