/** The resource catalog that `populateAvailableResources` in src/lib/data.ts
    builds from the bucket listing, written as a fold over the listed
    documents: one step per document, skipping keys that are not
    `gradesub/filename`, adding a category and an empty materials page the
    first time a grade-and-subject is seen, and appending one document. */
module ResourceCatalog {
  import opened Wrappers
  import opened JsStrings
  import opened R2Listing
  import opened ResourceTypes

  /** What the engine throws when `grade` or `subject` is undefined and
      `.toUpperCase()` is read from it. */
  const TYPE_ERROR := "TypeError: Cannot read properties of undefined (reading 'toUpperCase')"

  const UNKNOWN_SIZE := "Unknown"

  /** The two module-level collections of data.ts. */
  datatype Catalog = Catalog(categories: seq<ResourceCategory>, materials: map<string, MaterialContent>)

  const EMPTY: Catalog := Catalog([], map[])

  // ---------------------------------------------------------------------------
  // Keys
  // ---------------------------------------------------------------------------

  /** A key the catalog uses: exactly one `/`, as in `class-10-physics/notes.pdf`. */
  predicate WellFormedKey(key: string)
  {
    |Split(key, '/')| == 2
  }

  function GradesubOf(key: string): string
    requires WellFormedKey(key)
  {
    Split(key, '/')[0]
  }

  function FilenameOf(key: string): string
    requires WellFormedKey(key)
  {
    Split(key, '/')[1]
  }

  /** Whether `gradesub.split('-')` yields a grade (token 1) and a subject (token 2). */
  predicate NamesGradeSubject(gradesub: string)
  {
    |Split(gradesub, '-')| >= 3
  }

  function Grade(gradesub: string): string
    requires NamesGradeSubject(gradesub)
  {
    Split(gradesub, '-')[1]
  }

  function Subject(gradesub: string): string
    requires NamesGradeSubject(gradesub)
  {
    Split(gradesub, '-')[2]
  }

  /** The index entry of a grade and subject. */
  function CategoryFor(gradesub: string): ResourceCategory
    requires NamesGradeSubject(gradesub)
  {
    var grade, subject := Grade(gradesub), Subject(gradesub);
    ResourceCategory(
      gradesub,
      "Class " + ToUpper(grade) + " | " + ToUpper(subject),
      "Study material for Class " + ToUpper(grade) + " - " + subject + ".",
      "class-" + grade + "/" + subject)
  }

  /** The empty materials page of a grade and subject. */
  function HeaderFor(gradesub: string): MaterialContent
    requires NamesGradeSubject(gradesub)
  {
    var grade, subject := Grade(gradesub), Subject(gradesub);
    MaterialContent(
      "Class " + ToUpper(grade) + " " + ToUpper(subject) + " Resources",
      "Explore videos and docs for Class " + ToUpper(grade) + " " + subject + ".",
      None, None, [], [])
  }

  // ---------------------------------------------------------------------------
  // Extension classifier
  // ---------------------------------------------------------------------------

  /** The text after the last `.` of a file name, or the whole name when it has none. */
  function RawExtension(filename: string): (r: string)
    ensures '.' !in r
  {
    Last(Split(filename, '.'))
  }

  /** The extension of a file name: its raw extension in lower case. */
  function FileExtension(filename: string): string
  {
    ToLower(RawExtension(filename))
  }

  /** The closed table of `populateAvailableResources`: `pdf` and `txt` get the
      text icon, `doc` and `docx` the archive icon, anything else is a plain
      file. The type is the extension itself whenever it is not `File`. */
  function Classify(ext: string): (r: (DocumentIconName, DocumentType))
    ensures r.1 != DocumentType.File <==> ext == "pdf" || ext == "doc" || ext == "docx" || ext == "txt"
    ensures r.1 != DocumentType.File ==> TypeName(r.1) == ext
    ensures r.0 == (if r.1 == Pdf || r.1 == Txt then FileText
                    else if r.1 == Doc || r.1 == Docx then FileArchive
                    else DocumentIconName.File)
  {
    if ext == "pdf" then (FileText, Pdf)
    else if ext == "doc" || ext == "docx" then (FileArchive, if ext == "doc" then Doc else Docx)
    else if ext == "txt" then (FileText, Txt)
    else (DocumentIconName.File, DocumentType.File)
  }

  /** The raw extension is the last `.`-segment: a name without a dot is its
      own extension, and otherwise the name ends with `.` and the extension. */
  lemma ExtensionSpec(filename: string)
    ensures '.' !in filename ==> RawExtension(filename) == filename
    ensures '.' in filename ==>
      |RawExtension(filename)| < |filename| &&
      filename[|filename| - |RawExtension(filename)| - 1..] == "." + RawExtension(filename)
  {
    var parts := Split(filename, '.');
    if |parts| == 1 {
      calc {
        filename;
        Join(parts, '.');
        parts[0];
      }
    } else {
      var init := parts[..|parts| - 1];
      assert parts == init + [Last(parts)];
      JoinSnoc(init, Last(parts), '.');
      assert filename == Join(init, '.') + ['.'] + Last(parts);
    }
  }

  /** The document a well-formed listed object becomes. */
  function DocumentFor(resource: R2Document, now: string): DocumentResource
    requires WellFormedKey(resource.key)
  {
    var filename := FilenameOf(resource.key);
    var (icon, docType) := Classify(FileExtension(filename));
    DocumentResource(resource.key, filename, docType, icon, resource.url, now, Some(UNKNOWN_SIZE))
  }

  // ---------------------------------------------------------------------------
  // One step of the loop, and the fold
  // ---------------------------------------------------------------------------

  /** Whether some category in the index already has this grade-and-subject. */
  predicate HasCategory(categories: seq<ResourceCategory>, gradesub: string)
  {
    exists i :: 0 <= i < |categories| && categories[i].gradesub == gradesub
  }

  /** Whether building the category or the header of `gradesub` would be needed
      and would throw. */
  predicate Throws(c: Catalog, gradesub: string)
  {
    (!HasCategory(c.categories, gradesub) || gradesub !in c.materials) && !NamesGradeSubject(gradesub)
  }

  /** The category push, done only for a grade-and-subject not yet listed. */
  function AddCategory(categories: seq<ResourceCategory>, gradesub: string): seq<ResourceCategory>
    requires HasCategory(categories, gradesub) || NamesGradeSubject(gradesub)
  {
    if HasCategory(categories, gradesub) then categories else categories + [CategoryFor(gradesub)]
  }

  /** The `materialPerCategory.set` of an empty page, done only for a new key. */
  function AddHeader(materials: map<string, MaterialContent>, gradesub: string): map<string, MaterialContent>
    requires gradesub in materials || NamesGradeSubject(gradesub)
  {
    if gradesub in materials then materials else materials[gradesub := HeaderFor(gradesub)]
  }

  /** A page with `docs` pushed onto its document list. */
  function AddDocuments(page: MaterialContent, docs: seq<DocumentResource>): MaterialContent
  {
    page.(documents := page.documents + docs)
  }

  lemma AddDocumentsTwice(page: MaterialContent, docs: seq<DocumentResource>, more: seq<DocumentResource>)
    ensures AddDocuments(AddDocuments(page, docs), more) == AddDocuments(page, docs + more)
  {
    assert (page.documents + docs) + more == page.documents + (docs + more);
  }

  /** The document appended to the list of the page of `gradesub`. */
  function AppendDocument(materials: map<string, MaterialContent>, gradesub: string, doc: DocumentResource): map<string, MaterialContent>
    requires gradesub in materials
  {
    materials[gradesub := AddDocuments(materials[gradesub], [doc])]
  }

  /** One pass of the loop over the listed objects. */
  function Step(c: Catalog, resource: R2Document, now: string): Result<Catalog>
  {
    if !WellFormedKey(resource.key) then Ok(c)
    else
      var gradesub := GradesubOf(resource.key);
      if Throws(c, gradesub) then Err(TYPE_ERROR)
      else
        Ok(Catalog(AddCategory(c.categories, gradesub),
                   AppendDocument(AddHeader(c.materials, gradesub), gradesub, DocumentFor(resource, now))))
  }

  /** The state the loop leaves, and the exception that stopped it if any. */
  datatype BuildResult = BuildResult(catalog: Catalog, error: Option<string>)

  /** The loop over `resources`: each step in order, stopping at the first that
      throws and keeping what the earlier steps did. */
  function Build(c: Catalog, resources: seq<R2Document>, now: string): BuildResult
  {
    if resources == [] then BuildResult(c, None)
    else
      var before := Build(c, resources[..|resources| - 1], now);
      if before.error.Some? then before
      else
        match Step(before.catalog, Last(resources), now)
        case Ok(next) => BuildResult(next, None)
        case Err(e) => BuildResult(before.catalog, Some(e))
  }

  /** `populateAvailableResources`: a failed listing is rethrown, an empty one
      changes nothing, any other is folded in. */
  function Populate(c: Catalog, listing: Result<seq<R2Document>>, now: string): BuildResult
  {
    match listing
    case Err(e) => BuildResult(c, Some(e))
    case Ok(resources) => if |resources| == 0 then BuildResult(c, None) else Build(c, resources, now)
  }

  /** `getMaterialContent`: the page stored under `gradeSlug-subjectSlug`. */
  function Lookup(c: Catalog, gradeSlug: string, subjectSlug: string): Option<MaterialContent>
  {
    var contentKey := gradeSlug + "-" + subjectSlug;
    if contentKey in c.materials then Some(c.materials[contentKey]) else None
  }

  // ---------------------------------------------------------------------------
  // The catalog invariant
  // ---------------------------------------------------------------------------

  /** Categories are unique by `gradesub`, and there is a materials page for
      exactly the grade-and-subjects that have a category. */
  predicate ValidCatalog(c: Catalog)
  {
    (forall i, j :: 0 <= i < j < |c.categories| ==> c.categories[i].gradesub != c.categories[j].gradesub) &&
    (forall i :: 0 <= i < |c.categories| ==> c.categories[i].gradesub in c.materials) &&
    (forall g :: g in c.materials ==> HasCategory(c.categories, g))
  }

  /** A step throws exactly for a well-formed key whose grade-and-subject is
      new and does not name a grade and a subject. */
  lemma StepThrows(c: Catalog, resource: R2Document, now: string)
    requires ValidCatalog(c)
    ensures Step(c, resource, now).Err? <==>
      WellFormedKey(resource.key) && GradesubOf(resource.key) !in c.materials &&
      !NamesGradeSubject(GradesubOf(resource.key))
  {
    if WellFormedKey(resource.key) && GradesubOf(resource.key) in c.materials {
      assert HasCategory(c.categories, GradesubOf(resource.key));
    }
  }

  /** Adding a category and a page for the same grade-and-subject keeps the invariant. */
  lemma AddKeepsValid(c: Catalog, g: string)
    requires ValidCatalog(c)
    requires (HasCategory(c.categories, g) && g in c.materials) || NamesGradeSubject(g)
    ensures ValidCatalog(Catalog(AddCategory(c.categories, g), AddHeader(c.materials, g)))
    ensures g in AddHeader(c.materials, g)
  {
    if !HasCategory(c.categories, g) {
      var cats := c.categories + [CategoryFor(g)];
      assert cats[|c.categories|].gradesub == g;
      forall h | h in AddHeader(c.materials, g)
        ensures HasCategory(cats, h)
      {
        if h != g {
          var i :| 0 <= i < |c.categories| && c.categories[i].gradesub == h;
          assert cats[i].gradesub == h;
        }
      }
    }
  }

  /** A step that succeeds keeps the invariant. */
  lemma StepKeepsValid(c: Catalog, resource: R2Document, now: string)
    requires ValidCatalog(c)
    requires Step(c, resource, now).Ok?
    ensures ValidCatalog(Step(c, resource, now).value)
  {
    if WellFormedKey(resource.key) {
      var g := GradesubOf(resource.key);
      StepThrows(c, resource, now);
      AddKeepsValid(c, g);
    }
  }

  // ---------------------------------------------------------------------------
  // What a build adds
  // ---------------------------------------------------------------------------

  /** The grade-and-subject of every well-formed key, in listing order. */
  function Gradesubs(resources: seq<R2Document>): seq<string>
  {
    if resources == [] then []
    else
      Gradesubs(resources[..|resources| - 1]) +
      (if WellFormedKey(Last(resources).key) then [GradesubOf(Last(resources).key)] else [])
  }

  /** The grade-and-subjects of `Gradesubs` that are not yet `known`. */
  function Fresh(known: set<string>, gradesubs: seq<string>): seq<string>
  {
    if gradesubs == [] then []
    else
      Fresh(known, gradesubs[..|gradesubs| - 1]) +
      (if Last(gradesubs) in known then [] else [Last(gradesubs)])
  }

  /** The documents of the well-formed keys under `gradesub`, in listing order. */
  function DocumentsUnder(resources: seq<R2Document>, gradesub: string, now: string): seq<DocumentResource>
  {
    if resources == [] then []
    else
      var r := Last(resources);
      DocumentsUnder(resources[..|resources| - 1], gradesub, now) +
      (if WellFormedKey(r.key) && GradesubOf(r.key) == gradesub then [DocumentFor(r, now)] else [])
  }

  /** The index entries of a list of grade-and-subjects. */
  function CategoriesOf(gradesubs: seq<string>): seq<ResourceCategory>
    requires forall g :: g in gradesubs ==> NamesGradeSubject(g)
  {
    seq(|gradesubs|, i requires 0 <= i < |gradesubs| => CategoryFor(gradesubs[i]))
  }

  /** The page of `gradesub` before the build: the stored one, or a new empty one. */
  function PageBefore(c: Catalog, gradesub: string): MaterialContent
    requires gradesub in c.materials || NamesGradeSubject(gradesub)
  {
    if gradesub in c.materials then c.materials[gradesub] else HeaderFor(gradesub)
  }

  /** What one successful step does to the page of `g`. */
  lemma StepPage(c: Catalog, resource: R2Document, now: string, g: string)
    requires Step(c, resource, now).Ok?
    ensures var m := Step(c, resource, now).value.materials;
      var hit := WellFormedKey(resource.key) && g == GradesubOf(resource.key);
      (g in m <==> g in c.materials || hit) &&
      (hit ==> (g in c.materials || NamesGradeSubject(g)) &&
               m[g] == AddDocuments(PageBefore(c, g), [DocumentFor(resource, now)])) &&
      (!hit && g in c.materials ==> m[g] == c.materials[g])
  {
  }

  lemma DocumentsUnderOther(resources: seq<R2Document>, gradesub: string, now: string)
    requires gradesub !in Gradesubs(resources)
    ensures DocumentsUnder(resources, gradesub, now) == []
  {
    if resources != [] {
      DocumentsUnderOther(resources[..|resources| - 1], gradesub, now);
    }
  }

  /** The pages `m` hold after the well-formed keys of `resources` were added
      to `c`: a page for exactly the old and the new grade-and-subjects (each
      new one naming a grade and a subject), each extended by the documents
      of its keys in listing order and otherwise as it was. */
  ghost predicate PagesAfter(c: Catalog, resources: seq<R2Document>, m: map<string, MaterialContent>, now: string)
  {
    (forall g :: g in m <==> g in c.materials || g in Gradesubs(resources)) &&
    (forall g :: g in m ==>
      (g in c.materials || NamesGradeSubject(g)) &&
      m[g] == AddDocuments(PageBefore(c, g), DocumentsUnder(resources, g, now)))
  }

  lemma SnocFacts(p: seq<R2Document>, r: R2Document, g: string, now: string)
    ensures Gradesubs(p + [r]) == Gradesubs(p) + (if WellFormedKey(r.key) then [GradesubOf(r.key)] else [])
    ensures DocumentsUnder(p + [r], g, now) ==
      DocumentsUnder(p, g, now) + (if WellFormedKey(r.key) && GradesubOf(r.key) == g then [DocumentFor(r, now)] else [])
  {
    assert (p + [r])[..|p|] == p;
  }

  /** The page of one grade-and-subject after one more step. */
  lemma PageStep(c: Catalog, p: seq<R2Document>, r: R2Document, b: Catalog, now: string, g: string)
    requires PagesAfter(c, p, b.materials, now)
    requires Step(b, r, now).Ok?
    requires g in Step(b, r, now).value.materials
    ensures g in c.materials || NamesGradeSubject(g)
    ensures Step(b, r, now).value.materials[g] ==
      AddDocuments(PageBefore(c, g), DocumentsUnder(p + [r], g, now))
  {
    SnocFacts(p, r, g, now);
    StepPage(b, r, now, g);
    var base := PageBefore(c, g);
    var before := DocumentsUnder(p, g, now);
    if WellFormedKey(r.key) && g == GradesubOf(r.key) {
      var d := DocumentFor(r, now);
      if g in b.materials {
        assert b.materials[g] == AddDocuments(base, before);
        AddDocumentsTwice(base, before, [d]);
      } else {
        assert g !in Gradesubs(p);
        DocumentsUnderOther(p, g, now);
        assert before + [d] == [d];
      }
    } else {
      assert b.materials[g] == AddDocuments(base, before);
    }
  }

  lemma PagesStep(c: Catalog, p: seq<R2Document>, r: R2Document, b: Catalog, now: string)
    requires PagesAfter(c, p, b.materials, now)
    requires Step(b, r, now).Ok?
    ensures PagesAfter(c, p + [r], Step(b, r, now).value.materials, now)
  {
    var m := Step(b, r, now).value.materials;
    forall g
      ensures g in m <==> g in c.materials || g in Gradesubs(p + [r])
    {
      SnocFacts(p, r, g, now);
      StepPage(b, r, now, g);
    }
    forall g | g in m
      ensures (g in c.materials || NamesGradeSubject(g)) &&
        m[g] == AddDocuments(PageBefore(c, g), DocumentsUnder(p + [r], g, now))
    {
      PageStep(c, p, r, b, now, g);
    }
  }

  /** A build that does not throw adds the pages `PagesAfter` describes. */
  lemma {:induction false} BuildMaterials(c: Catalog, resources: seq<R2Document>, now: string)
    requires Build(c, resources, now).error.None?
    ensures PagesAfter(c, resources, Build(c, resources, now).catalog.materials, now)
  {
    if resources == [] {
    } else {
      var p := resources[..|resources| - 1];
      var r := Last(resources);
      BuildMaterials(c, p, now);
      assert resources == p + [r];
      PagesStep(c, p, r, Build(c, p, now).catalog, now);
    }
  }

  /** A build keeps the catalog invariant, whether or not it throws. */
  lemma {:induction false} BuildValid(c: Catalog, resources: seq<R2Document>, now: string)
    requires ValidCatalog(c)
    ensures ValidCatalog(Build(c, resources, now).catalog)
  {
    if resources != [] {
      var p := resources[..|resources| - 1];
      BuildValid(c, p, now);
      var b := Build(c, p, now);
      if b.error.None? && Step(b.catalog, Last(resources), now).Ok? {
        StepKeepsValid(b.catalog, Last(resources), now);
      }
    }
  }

  /** The listed object on which building `c` throws: a well-formed key whose
      grade-and-subject is new and lacks a grade or a subject token. */
  ghost predicate Fails(c: Catalog, resource: R2Document)
  {
    WellFormedKey(resource.key) && GradesubOf(resource.key) !in c.materials &&
    !NamesGradeSubject(GradesubOf(resource.key))
  }

  /** After a build that has not thrown, the next step throws exactly on an
      object that `Fails` against the starting catalog. */
  lemma StepAfterBuild(c: Catalog, p: seq<R2Document>, r: R2Document, now: string)
    requires ValidCatalog(c)
    requires Build(c, p, now).error.None?
    ensures Step(Build(c, p, now).catalog, r, now).Err? <==> Fails(c, r)
  {
    var b := Build(c, p, now).catalog;
    BuildValid(c, p, now);
    BuildMaterials(c, p, now);
    StepThrows(b, r, now);
  }

  /** One more listed object: the fold as a step after the build of the rest. */
  lemma BuildSnoc(c: Catalog, p: seq<R2Document>, r: R2Document, now: string)
    ensures Build(c, p + [r], now) ==
      if Build(c, p, now).error.Some? then Build(c, p, now)
      else match Step(Build(c, p, now).catalog, r, now)
        case Ok(next) => BuildResult(next, None)
        case Err(e) => BuildResult(Build(c, p, now).catalog, Some(e))
  {
    assert (p + [r])[..|p|] == p;
  }

  /** Once a build has thrown, the objects after it are never looked at. */
  lemma {:induction false} BuildSticky(c: Catalog, p: seq<R2Document>, q: seq<R2Document>, now: string)
    requires Build(c, p, now).error.Some?
    ensures Build(c, p + q, now) == Build(c, p, now)
  {
    if q == [] {
      assert p + q == p;
    } else {
      var init := q[..|q| - 1];
      BuildSticky(c, p, init, now);
      assert p + q == (p + init) + [Last(q)];
      BuildSnoc(c, p + init, Last(q), now);
    }
  }

  /** A build throws exactly when some listed object `Fails`. */
  lemma {:induction false} BuildErrorIff(c: Catalog, resources: seq<R2Document>, now: string)
    requires ValidCatalog(c)
    ensures Build(c, resources, now).error.None? <==> forall i :: 0 <= i < |resources| ==> !Fails(c, resources[i])
  {
    if resources != [] {
      var p := resources[..|resources| - 1];
      var r := Last(resources);
      assert resources == p + [r];
      BuildErrorIff(c, p, now);
      BuildSnoc(c, p, r, now);
      if Build(c, p, now).error.None? {
        StepAfterBuild(c, p, r, now);
      }
    }
  }

  /** A build that throws stops at the first object that `Fails`, index `i`,
      with the error of `.toUpperCase()` on undefined, and what the earlier
      objects added stays in place. */
  lemma {:induction false} BuildErrorStop(c: Catalog, resources: seq<R2Document>, now: string) returns (i: nat)
    requires ValidCatalog(c)
    requires Build(c, resources, now).error.Some?
    ensures Build(c, resources, now).error == Some(TYPE_ERROR)
    ensures i < |resources| && Fails(c, resources[i])
    ensures forall j :: 0 <= j < i ==> !Fails(c, resources[j])
    ensures Build(c, resources[..i], now) == BuildResult(Build(c, resources, now).catalog, None)
  {
    var p := resources[..|resources| - 1];
    var r := Last(resources);
    assert resources == p + [r];
    BuildSnoc(c, p, r, now);
    if Build(c, p, now).error.Some? {
      i := BuildErrorStop(c, p, now);
      assert resources[..i] == p[..i];
      assert resources[i] == p[i];
    } else {
      i := |p|;
      StepAfterBuild(c, p, r, now);
      BuildErrorIff(c, p, now);
      assert resources[..|p|] == p;
    }
  }

  lemma FreshSnoc(known: set<string>, gradesubs: seq<string>, g: string)
    ensures Fresh(known, gradesubs + [g]) == Fresh(known, gradesubs) + (if g in known then [] else [g])
  {
    assert (gradesubs + [g])[..|gradesubs|] == gradesubs;
  }

  lemma {:induction false} FreshMembers(known: set<string>, gradesubs: seq<string>)
    ensures forall x :: x in Fresh(known, gradesubs) <==> x in gradesubs && x !in known
  {
    if gradesubs != [] {
      var p := gradesubs[..|gradesubs| - 1];
      FreshMembers(known, p);
      assert gradesubs == p + [Last(gradesubs)];
    }
  }

  lemma CategoriesOfSnoc(gradesubs: seq<string>, g: string)
    requires forall h :: h in gradesubs + [g] ==> NamesGradeSubject(h)
    ensures CategoriesOf(gradesubs + [g]) == CategoriesOf(gradesubs) + [CategoryFor(g)]
  {
  }

  /** The categories `cats` hold after the well-formed keys of `resources`
      were added to `c`: the old ones, then one per new grade-and-subject in
      order of first appearance, each naming a grade and a subject. */
  ghost predicate CategoriesAfter(c: Catalog, resources: seq<R2Document>, cats: seq<ResourceCategory>)
  {
    var added := Distinct(Fresh(c.materials.Keys, Gradesubs(resources)));
    (forall g :: g in added ==> NamesGradeSubject(g)) && cats == c.categories + CategoriesOf(added)
  }

  /** What one successful step does to the categories. */
  lemma StepCategories(b: Catalog, r: R2Document, now: string)
    requires Step(b, r, now).Ok?
    ensures var cats := Step(b, r, now).value.categories;
      if WellFormedKey(r.key) && !HasCategory(b.categories, GradesubOf(r.key))
      then NamesGradeSubject(GradesubOf(r.key)) && cats == b.categories + [CategoryFor(GradesubOf(r.key))]
      else cats == b.categories
  {
  }

  /** A step on an object whose grade-and-subject was seen before (or whose
      key is skipped) adds no category. */
  lemma CategoriesStepSeen(c: Catalog, p: seq<R2Document>, r: R2Document, b: Catalog, now: string)
    requires CategoriesAfter(c, p, b.categories)
    requires Step(b, r, now).Ok?
    requires WellFormedKey(r.key) ==>
      HasCategory(b.categories, GradesubOf(r.key)) &&
      (GradesubOf(r.key) in c.materials || GradesubOf(r.key) in Gradesubs(p))
    ensures CategoriesAfter(c, p + [r], Step(b, r, now).value.categories)
  {
    SnocFacts(p, r, "", now);
    StepCategories(b, r, now);
    var known := c.materials.Keys;
    var unseen := Fresh(known, Gradesubs(p));
    var cats := Step(b, r, now).value.categories;
    if WellFormedKey(r.key) {
      var g := GradesubOf(r.key);
      FreshSnoc(known, Gradesubs(p), g);
      assert Gradesubs(p + [r]) == Gradesubs(p) + [g];
      if g !in known {
        FreshMembers(known, Gradesubs(p));
        DistinctSnoc(unseen, g);
        assert g in unseen;
        assert Fresh(known, Gradesubs(p + [r])) == unseen + [g];
      } else {
        assert Fresh(known, Gradesubs(p + [r])) == unseen + [];
        assert unseen + [] == unseen;
      }
    } else {
      assert Gradesubs(p + [r]) == Gradesubs(p);
    }
    assert cats == b.categories;
  }

  /** A step on the first object of a new grade-and-subject adds its category. */
  lemma CategoriesStepNew(c: Catalog, p: seq<R2Document>, r: R2Document, b: Catalog, now: string)
    requires CategoriesAfter(c, p, b.categories)
    requires Step(b, r, now).Ok?
    requires WellFormedKey(r.key) && !HasCategory(b.categories, GradesubOf(r.key))
    requires GradesubOf(r.key) !in c.materials && GradesubOf(r.key) !in Gradesubs(p)
    ensures CategoriesAfter(c, p + [r], Step(b, r, now).value.categories)
  {
    var g := GradesubOf(r.key);
    SnocFacts(p, r, "", now);
    StepCategories(b, r, now);
    var known := c.materials.Keys;
    var unseen := Fresh(known, Gradesubs(p));
    FreshSnoc(known, Gradesubs(p), g);
    assert Gradesubs(p + [r]) == Gradesubs(p) + [g];
    assert Fresh(known, Gradesubs(p + [r])) == unseen + [g];
    FreshMembers(known, Gradesubs(p));
    DistinctSnoc(unseen, g);
    var d := Distinct(unseen);
    assert Distinct(Fresh(known, Gradesubs(p + [r]))) == d + [g];
    CategoriesOfSnoc(d, g);
    var cats := Step(b, r, now).value.categories;
    assert cats == (c.categories + CategoriesOf(d)) + [CategoryFor(g)];
    ConcatAssoc(c.categories, CategoriesOf(d), [CategoryFor(g)]);
  }

  lemma CategoriesStep(c: Catalog, p: seq<R2Document>, r: R2Document, b: Catalog, now: string)
    requires ValidCatalog(b)
    requires CategoriesAfter(c, p, b.categories)
    requires PagesAfter(c, p, b.materials, now)
    requires Step(b, r, now).Ok?
    ensures CategoriesAfter(c, p + [r], Step(b, r, now).value.categories)
  {
    if WellFormedKey(r.key) {
      var g := GradesubOf(r.key);
      assert g in b.materials <==> g in c.materials || g in Gradesubs(p);
      assert HasCategory(b.categories, g) <==> g in b.materials;
      if g in b.materials {
        CategoriesStepSeen(c, p, r, b, now);
      } else {
        CategoriesStepNew(c, p, r, b, now);
      }
    } else {
      CategoriesStepSeen(c, p, r, b, now);
    }
  }

  /** A build that does not throw appends the categories `CategoriesAfter`
      describes and keeps the earlier ones. */
  lemma {:induction false} BuildCategories(c: Catalog, resources: seq<R2Document>, now: string)
    requires ValidCatalog(c)
    requires Build(c, resources, now).error.None?
    ensures CategoriesAfter(c, resources, Build(c, resources, now).catalog.categories)
  {
    if resources == [] {
      assert CategoriesOf([]) == [];
    } else {
      var p := resources[..|resources| - 1];
      var r := Last(resources);
      assert resources == p + [r];
      BuildSnoc(c, p, r, now);
      BuildCategories(c, p, now);
      BuildValid(c, p, now);
      BuildMaterials(c, p, now);
      CategoriesStep(c, p, r, Build(c, p, now).catalog, now);
    }
  }

  // ---------------------------------------------------------------------------
  // Populating, looking up and counting
  // ---------------------------------------------------------------------------

  /** `populateAvailableResources` keeps the invariant; a failed listing is
      passed on and changes nothing, and otherwise the only exception is the
      one of a grade-and-subject lacking a token. */
  lemma PopulateSpec(c: Catalog, listing: Result<seq<R2Document>>, now: string)
    requires ValidCatalog(c)
    ensures ValidCatalog(Populate(c, listing, now).catalog)
    ensures listing.Err? ==> Populate(c, listing, now) == BuildResult(c, Some(listing.error))
    ensures listing == Ok([]) ==> Populate(c, listing, now) == BuildResult(c, None)
    ensures listing.Ok? && Populate(c, listing, now).error.Some? ==>
      Populate(c, listing, now).error == Some(TYPE_ERROR)
  {
    if listing.Ok? && |listing.value| > 0 {
      BuildValid(c, listing.value, now);
      if Build(c, listing.value, now).error.Some? {
        var _ := BuildErrorStop(c, listing.value, now);
      }
    }
  }

  lemma {:induction false} GradesubsMembers(resources: seq<R2Document>)
    ensures forall g :: g in Gradesubs(resources) <==>
      exists i :: 0 <= i < |resources| && WellFormedKey(resources[i].key) && GradesubOf(resources[i].key) == g
  {
    if resources != [] {
      var p := resources[..|resources| - 1];
      GradesubsMembers(p);
      assert resources == p + [Last(resources)];
      forall g | exists i :: 0 <= i < |resources| && WellFormedKey(resources[i].key) && GradesubOf(resources[i].key) == g
        ensures g in Gradesubs(resources)
      {
        var i :| 0 <= i < |resources| && WellFormedKey(resources[i].key) && GradesubOf(resources[i].key) == g;
        if i < |p| {
          assert p[i] == resources[i];
        }
      }
      forall g | g in Gradesubs(p)
        ensures exists i :: 0 <= i < |resources| && WellFormedKey(resources[i].key) && GradesubOf(resources[i].key) == g
      {
        var i :| 0 <= i < |p| && WellFormedKey(p[i].key) && GradesubOf(p[i].key) == g;
        assert resources[i] == p[i];
      }
    }
  }

  /** Every document on the page of `gradesub` comes from a well-formed listed key under it. */
  lemma {:induction false} DocumentsUnderSound(resources: seq<R2Document>, gradesub: string, now: string, d: DocumentResource)
    requires d in DocumentsUnder(resources, gradesub, now)
    ensures (exists i :: 0 <= i < |resources| && WellFormedKey(resources[i].key) &&
               GradesubOf(resources[i].key) == gradesub && d == DocumentFor(resources[i], now))
  {
    var p := resources[..|resources| - 1];
    var r := Last(resources);
    var hit := WellFormedKey(r.key) && GradesubOf(r.key) == gradesub;
    assert DocumentsUnder(resources, gradesub, now) ==
      DocumentsUnder(p, gradesub, now) + (if hit then [DocumentFor(r, now)] else []);
    if d in DocumentsUnder(p, gradesub, now) {
      DocumentsUnderSound(p, gradesub, now, d);
      var i :| 0 <= i < |p| && WellFormedKey(p[i].key) && GradesubOf(p[i].key) == gradesub && d == DocumentFor(p[i], now);
      assert resources[i] == p[i];
    } else {
      assert hit && d == DocumentFor(r, now);
      assert resources[|p|] == r;
    }
  }

  /** The document of every well-formed listed key under `gradesub` is on its page. */
  lemma {:induction false} DocumentsUnderComplete(resources: seq<R2Document>, gradesub: string, now: string, i: nat)
    requires i < |resources| && WellFormedKey(resources[i].key) && GradesubOf(resources[i].key) == gradesub
    ensures DocumentFor(resources[i], now) in DocumentsUnder(resources, gradesub, now)
  {
    var p := resources[..|resources| - 1];
    if i < |p| {
      assert p[i] == resources[i];
      DocumentsUnderComplete(p, gradesub, now, i);
    }
  }

  /** The page of a grade-and-subject holds one document per well-formed
      listed key under it, and nothing else. */
  lemma DocumentsUnderMembers(resources: seq<R2Document>, gradesub: string, now: string)
    ensures forall d :: d in DocumentsUnder(resources, gradesub, now) <==>
      exists i :: 0 <= i < |resources| && WellFormedKey(resources[i].key) &&
        GradesubOf(resources[i].key) == gradesub && d == DocumentFor(resources[i], now)
  {
    forall d | d in DocumentsUnder(resources, gradesub, now)
      ensures (exists i :: 0 <= i < |resources| && WellFormedKey(resources[i].key) &&
                 GradesubOf(resources[i].key) == gradesub && d == DocumentFor(resources[i], now))
    {
      DocumentsUnderSound(resources, gradesub, now, d);
    }
    forall i | 0 <= i < |resources| && WellFormedKey(resources[i].key) && GradesubOf(resources[i].key) == gradesub
      ensures DocumentFor(resources[i], now) in DocumentsUnder(resources, gradesub, now)
    {
      DocumentsUnderComplete(resources, gradesub, now, i);
    }
  }

  /** A well-formed key is its grade-and-subject and its file name around its
      one `/`. */
  lemma KeyParts(key: string)
    requires WellFormedKey(key)
    ensures key == GradesubOf(key) + "/" + FilenameOf(key)
    ensures '/' !in GradesubOf(key) && '/' !in FilenameOf(key)
  {
    var parts := Split(key, '/');
    assert parts[1..] == [parts[1]];
  }

  /** Every grade-and-subject and file name without `/` make a well-formed key
      that splits back into them. */
  lemma KeyOf(gradesub: string, filename: string)
    requires '/' !in gradesub && '/' !in filename
    ensures WellFormedKey(gradesub + "/" + filename)
    ensures GradesubOf(gradesub + "/" + filename) == gradesub
    ensures FilenameOf(gradesub + "/" + filename) == filename
  {
    var parts := [gradesub, filename];
    assert parts[1..] == [filename];
    assert Join(parts, '/') == gradesub + "/" + filename;
    SplitJoin(parts, '/');
  }

  /** Each document on the page of `gradesub` is identified by its key, which
      is `gradesub`, a `/` and its title, and links to the listed object's URL. */
  lemma PageDocuments(resources: seq<R2Document>, gradesub: string, now: string)
    ensures forall d :: d in DocumentsUnder(resources, gradesub, now) ==>
      d.id == gradesub + "/" + d.title && '/' !in d.title &&
      d.uploadDate == now && d.fileSize == Some(UNKNOWN_SIZE) &&
      exists i :: 0 <= i < |resources| && resources[i].key == d.id && resources[i].url == d.downloadUrl
  {
    DocumentsUnderMembers(resources, gradesub, now);
    forall d | d in DocumentsUnder(resources, gradesub, now)
      ensures d.id == gradesub + "/" + d.title && '/' !in d.title &&
        d.uploadDate == now && d.fileSize == Some(UNKNOWN_SIZE) &&
        exists i :: 0 <= i < |resources| && resources[i].key == d.id && resources[i].url == d.downloadUrl
    {
      var i :| 0 <= i < |resources| && WellFormedKey(resources[i].key) &&
        GradesubOf(resources[i].key) == gradesub && d == DocumentFor(resources[i], now);
      KeyParts(resources[i].key);
    }
  }

  /** After building from the empty catalog without an exception, the page
      under `gradeSlug-subjectSlug` exists exactly when some well-formed listed
      key has that grade-and-subject, and it is then the empty page of that
      grade and subject with the documents of those keys in listing order. */
  lemma LookupAfterBuild(resources: seq<R2Document>, now: string, gradeSlug: string, subjectSlug: string)
    requires Build(EMPTY, resources, now).error.None?
    ensures var k := gradeSlug + "-" + subjectSlug;
      var page := Lookup(Build(EMPTY, resources, now).catalog, gradeSlug, subjectSlug);
      (page.Some? <==> exists i :: 0 <= i < |resources| && WellFormedKey(resources[i].key) && GradesubOf(resources[i].key) == k) &&
      (page.Some? ==> NamesGradeSubject(k) && page.value.videos == [] &&
                      page.value == AddDocuments(HeaderFor(k), DocumentsUnder(resources, k, now)))
  {
    BuildMaterials(EMPTY, resources, now);
    GradesubsMembers(resources);
  }

  /** No part contains `-`. */
  predicate NoDash(parts: seq<string>)
  {
    forall i :: 0 <= i < |parts| ==> '-' !in parts[i]
  }

  /** The grade and the subject are the second and third `-`-tokens, whatever
      the first token is and whatever tokens follow. */
  lemma CategoryTokens(prefix: string, grade: string, subject: string, more: seq<string>)
    requires NoDash([prefix, grade, subject] + more)
    ensures var gradesub := Join([prefix, grade, subject] + more, '-');
      NamesGradeSubject(gradesub) && Grade(gradesub) == grade && Subject(gradesub) == subject &&
      CategoryFor(gradesub).title == "Class " + ToUpper(grade) + " | " + ToUpper(subject) &&
      CategoryFor(gradesub).slug == "class-" + grade + "/" + subject
  {
    SplitJoin([prefix, grade, subject] + more, '-');
  }

  /** A `-`-free part list can be read back from its join. */
  lemma JoinInjective(a: seq<string>, b: seq<string>)
    requires |a| >= 1 && |b| >= 1 && NoDash(a) && NoDash(b)
    requires Join(a, '-') == Join(b, '-')
    ensures a == b
  {
    SplitJoin(a, '-');
    SplitJoin(b, '-');
  }

  /** The category link `class-G/S` is served by `getMaterialContent` with the
      slugs `class-G` and `S`, which look up `class-G-S`: this is the
      category's own key exactly when its first token is `class` and no token
      follows the subject. */
  lemma SlugKey(prefix: string, grade: string, subject: string, more: seq<string>)
    requires NoDash([prefix, grade, subject] + more)
    ensures ("class-" + grade) + "-" + subject == Join([prefix, grade, subject] + more, '-') <==>
      prefix == "class" && more == []
  {
    var own := ["class", grade, subject];
    assert own[1..] == [grade, subject];
    assert own[1..][1..] == [subject];
    assert Join(own[1..], '-') == grade + "-" + subject;
    assert Join(own, '-') == ("class-" + grade) + "-" + subject;
    var parts := [prefix, grade, subject] + more;
    assert parts[1] == grade && parts[2] == subject;
    if Join(own, '-') == Join(parts, '-') {
      assert NoDash(own);
      JoinInjective(own, parts);
      assert parts[0] == prefix;
      assert |parts| == 3 + |more|;
    }
    if prefix == "class" && more == [] {
      assert parts == own;
    }
  }

  /** The documents the index leads to: those of each category's page, in
      category order. */
  function DocumentCount(categories: seq<ResourceCategory>, materials: map<string, MaterialContent>): nat
  {
    if categories == [] then 0
    else
      var g := Last(categories).gradesub;
      DocumentCount(categories[..|categories| - 1], materials) + (if g in materials then |materials[g].documents| else 0)
  }

  lemma {:induction false} CountUpdateAbsent(categories: seq<ResourceCategory>, materials: map<string, MaterialContent>, g: string, page: MaterialContent)
    requires !HasCategory(categories, g)
    ensures DocumentCount(categories, materials[g := page]) == DocumentCount(categories, materials)
  {
    if categories != [] {
      var p := categories[..|categories| - 1];
      forall i | 0 <= i < |p|
        ensures p[i].gradesub != g
      {
        assert p[i] == categories[i];
      }
      CountUpdateAbsent(p, materials, g, page);
    }
  }

  lemma {:induction false} CountUpdatePresent(categories: seq<ResourceCategory>, materials: map<string, MaterialContent>, g: string, page: MaterialContent)
    requires forall i, j :: 0 <= i < j < |categories| ==> categories[i].gradesub != categories[j].gradesub
    requires HasCategory(categories, g) && g in materials
    ensures DocumentCount(categories, materials[g := page]) ==
      DocumentCount(categories, materials) - |materials[g].documents| + |page.documents|
  {
    var p := categories[..|categories| - 1];
    if Last(categories).gradesub == g {
      forall i | 0 <= i < |p|
        ensures p[i].gradesub != g
      {
        assert p[i] == categories[i];
      }
      CountUpdateAbsent(p, materials, g, page);
    } else {
      var i :| 0 <= i < |categories| && categories[i].gradesub == g;
      assert i < |p| && p[i] == categories[i];
      CountUpdatePresent(p, materials, g, page);
    }
  }

  /** A step on a key whose grade-and-subject is listed adds its document to
      that page. */
  lemma StepCountSeen(c: Catalog, resource: R2Document, now: string)
    requires ValidCatalog(c)
    requires WellFormedKey(resource.key) && HasCategory(c.categories, GradesubOf(resource.key))
    ensures var next := Step(c, resource, now).value;
      Step(c, resource, now).Ok? &&
      DocumentCount(next.categories, next.materials) == DocumentCount(c.categories, c.materials) + 1
  {
    var g := GradesubOf(resource.key);
    var i :| 0 <= i < |c.categories| && c.categories[i].gradesub == g;
    assert g in c.materials;
    var page := AddDocuments(c.materials[g], [DocumentFor(resource, now)]);
    assert Step(c, resource, now) == Ok(Catalog(c.categories, c.materials[g := page]));
    CountUpdatePresent(c.categories, c.materials, g, page);
  }

  /** A step on the first key of a grade-and-subject adds its category and a
      page holding its document. */
  lemma StepCountNew(c: Catalog, resource: R2Document, now: string)
    requires ValidCatalog(c)
    requires WellFormedKey(resource.key) && !HasCategory(c.categories, GradesubOf(resource.key))
    requires NamesGradeSubject(GradesubOf(resource.key))
    ensures var next := Step(c, resource, now).value;
      Step(c, resource, now).Ok? &&
      DocumentCount(next.categories, next.materials) == DocumentCount(c.categories, c.materials) + 1
  {
    var g := GradesubOf(resource.key);
    assert g !in c.materials;
    var page := AddDocuments(HeaderFor(g), [DocumentFor(resource, now)]);
    var cats := c.categories + [CategoryFor(g)];
    var headed := AddHeader(c.materials, g);
    assert headed == c.materials[g := HeaderFor(g)];
    assert AppendDocument(headed, g, DocumentFor(resource, now)) == c.materials[g := page];
    assert AddCategory(c.categories, g) == cats;
    assert cats[..|c.categories|] == c.categories;
    CountUpdateAbsent(c.categories, c.materials, g, page);
  }

  /** A successful step adds one document to the index for a well-formed key
      and none for a skipped one. */
  lemma StepCount(c: Catalog, resource: R2Document, now: string)
    requires ValidCatalog(c)
    requires Step(c, resource, now).Ok?
    ensures var next := Step(c, resource, now).value;
      DocumentCount(next.categories, next.materials) ==
      DocumentCount(c.categories, c.materials) + (if WellFormedKey(resource.key) then 1 else 0)
  {
    if WellFormedKey(resource.key) {
      if HasCategory(c.categories, GradesubOf(resource.key)) {
        StepCountSeen(c, resource, now);
      } else {
        StepCountNew(c, resource, now);
      }
    }
  }

  /** A build that does not throw adds one document to the index per
      well-formed listed key. */
  lemma {:induction false} BuildCount(c: Catalog, resources: seq<R2Document>, now: string)
    requires ValidCatalog(c)
    requires Build(c, resources, now).error.None?
    ensures var b := Build(c, resources, now).catalog;
      DocumentCount(b.categories, b.materials) == DocumentCount(c.categories, c.materials) + |Gradesubs(resources)|
  {
    if resources != [] {
      var p := resources[..|resources| - 1];
      var r := Last(resources);
      assert resources == p + [r];
      BuildSnoc(c, p, r, now);
      SnocFacts(p, r, "", now);
      BuildCount(c, p, now);
      BuildValid(c, p, now);
      StepCount(Build(c, p, now).catalog, r, now);
    }
  }
}
