/** The module state of src/lib/data.ts: the two collections that
    `populateAvailableResources` fills in place once, when the module is
    loaded, and that `getMaterialContent` and `getResourceCategories` read. */
module ResourceStore {
  import opened Wrappers
  import opened JsStrings
  import opened R2Listing
  import opened R2Access
  import opened ResourceTypes
  import opened ResourceCatalog

  class Store {
    var resourceCategories: seq<ResourceCategory>
    var materialPerCategory: map<string, MaterialContent>

    /** The two collections as one value. */
    function State(): Catalog
      reads this
    {
      Catalog(resourceCategories, materialPerCategory)
    }

    /** Loading the module: both collections start empty and
        `initializationPromise` populates them, logging and dropping whatever
        the population throws, so a failure leaves what was added before it. */
    constructor (fetch: Fetch, now: string)
      ensures State() == Populate(EMPTY, DocumentsRead(None, fetch), now).catalog
      ensures ValidCatalog(State())
    {
      resourceCategories := [];
      materialPerCategory := map[];
      new;
      var _, _ := PopulateAvailableResources(fetch, now);
      PopulateSpec(EMPTY, DocumentsRead(None, fetch), now);
    }

    /** `populateAvailableResources`: lists the bucket (no environment is
        passed, so always through the S3-compatible API), then walks the
        listing in order, skipping keys that are not `gradesub/filename`,
        adding a category and an empty page for each new grade-and-subject
        and appending one document per key. It stops at the first exception,
        keeping what the earlier keys added, and reports it. */
    method PopulateAvailableResources(fetch: Fetch, now: string) returns (error: Option<string>, trace: seq<Event>)
      modifies this
      ensures BuildResult(State(), error) == Populate(old(State()), DocumentsRead(None, fetch), now)
      ensures trace == Trace(AttemptsMade(fetch, ListUrl(), Listing))
    {
      var resources;
      resources, trace := GetDocumentsFromR2(None, fetch);
      if resources.Err? {
        return Some(resources.error), trace;
      }
      var rs := resources.value;
      if |rs| == 0 {
        return None, trace;
      }
      ghost var start := State();
      var i := 0;
      while i < |rs|
        invariant 0 <= i <= |rs|
        invariant Build(start, rs[..i], now) == BuildResult(State(), None)
      {
        var thrown := AddResource(rs[i], now);
        if thrown.Some? {
          error := thrown;
          BuildStops(start, rs, i, now);
          return;
        }
        BuildContinues(start, rs, i, now);
        i := i + 1;
      }
      assert rs[..i] == rs;
      error := None;
    }

    /** One pass of the loop of `populateAvailableResources`: a key that is not
        `gradesub/filename` is skipped; otherwise the category is pushed and
        the empty page set when their grade-and-subject is new (building
        either throws when `grade` or `subject` is undefined, before anything
        changes), and the document is pushed onto the page. */
    method AddResource(resource: R2Document, now: string) returns (error: Option<string>)
      modifies this
      ensures match Step(old(State()), resource, now)
        case Ok(next) => error.None? && State() == next
        case Err(e) => error == Some(e) && State() == old(State())
    {
      var parts := Split(resource.key, '/');
      if |parts| != 2 {
        return None;
      }
      var gradesub, filename := parts[0], parts[1];
      var tokens := Split(gradesub, '-');
      if !(exists k :: 0 <= k < |resourceCategories| && resourceCategories[k].gradesub == gradesub) {
        if |tokens| < 3 {
          return Some(TYPE_ERROR);
        }
        var grade, subject := tokens[1], tokens[2];
        resourceCategories := resourceCategories + [ResourceCategory(
          gradesub,
          "Class " + ToUpper(grade) + " | " + ToUpper(subject),
          "Study material for Class " + ToUpper(grade) + " - " + subject + ".",
          "class-" + grade + "/" + subject)];
      }
      assert resourceCategories == AddCategory(old(resourceCategories), gradesub);
      if gradesub !in materialPerCategory {
        if |tokens| < 3 {
          return Some(TYPE_ERROR);
        }
        var grade, subject := tokens[1], tokens[2];
        materialPerCategory := materialPerCategory[gradesub := MaterialContent(
          "Class " + ToUpper(grade) + " " + ToUpper(subject) + " Resources",
          "Explore videos and docs for Class " + ToUpper(grade) + " " + subject + ".",
          None, None, [], [])];
      }
      assert materialPerCategory == AddHeader(old(materialPerCategory), gradesub);
      var materialContent := materialPerCategory[gradesub];
      var (icon, docType) := Classify(FileExtension(filename));
      var document := DocumentResource(resource.key, filename, docType, icon, resource.url, now, Some(UNKNOWN_SIZE));
      assert document == DocumentFor(resource, now);
      materialPerCategory := materialPerCategory[gradesub := materialContent.(documents := materialContent.documents + [document])];
      return None;
    }

    /** `getMaterialContent`: the page stored under `gradeSlug-subjectSlug`,
        or nothing. */
    method GetMaterialContent(gradeSlug: string, subjectSlug: string) returns (r: Option<MaterialContent>)
      ensures r.Some? <==> gradeSlug + "-" + subjectSlug in materialPerCategory
      ensures r.Some? ==> r.value == materialPerCategory[gradeSlug + "-" + subjectSlug]
      ensures r == Lookup(State(), gradeSlug, subjectSlug)
    {
      var contentKey := gradeSlug + "-" + subjectSlug;
      if contentKey in materialPerCategory {
        r := Some(materialPerCategory[contentKey]);
      } else {
        r := None;
      }
    }

    /** `getResourceCategories`: the index, in the order it was filled. */
    method GetResourceCategories() returns (r: seq<ResourceCategory>)
      ensures r == resourceCategories
    {
      r := resourceCategories;
    }
  }

  /** The step on `resources[i]` succeeds after the earlier ones did: the
      build of one more object is that step's catalog. */
  lemma BuildContinues(c: Catalog, resources: seq<R2Document>, i: nat, now: string)
    requires i < |resources|
    requires Build(c, resources[..i], now).error.None?
    requires Step(Build(c, resources[..i], now).catalog, resources[i], now).Ok?
    ensures Build(c, resources[..i + 1], now) ==
      BuildResult(Step(Build(c, resources[..i], now).catalog, resources[i], now).value, None)
  {
    assert resources[..i + 1] == resources[..i] + [resources[i]];
    BuildSnoc(c, resources[..i], resources[i], now);
  }

  /** The step on `resources[i]` throws after the earlier ones did not: the
      build ends there with that state and that exception. */
  lemma BuildStops(c: Catalog, resources: seq<R2Document>, i: nat, now: string)
    requires i < |resources|
    requires Build(c, resources[..i], now).error.None?
    requires Step(Build(c, resources[..i], now).catalog, resources[i], now).Err?
    ensures Build(c, resources, now) ==
      BuildResult(Build(c, resources[..i], now).catalog, Some(Step(Build(c, resources[..i], now).catalog, resources[i], now).error))
  {
    assert resources[..i + 1] == resources[..i] + [resources[i]];
    BuildSnoc(c, resources[..i], resources[i], now);
    BuildSticky(c, resources[..i + 1], resources[i + 1..], now);
    assert resources == resources[..i + 1] + resources[i + 1..];
  }
}
