/** The integrity audit of scripts/audit_frbr_integrity.py: the specification the run is held to. */
module Auditor {
  import opened Support
  import opened Clusters
  import opened Catalogue
  import opened Relocation
  import Isbn

  datatype Orphans = Orphans(expressions: set<int>, manifestations: set<int>, items: set<int>)

  function FindOrphans(rows: Rows): Orphans {
    Orphans(
      set e | e in rows.expressions && rows.expressions[e] !in rows.works,
      set m | m in rows.manifestations && rows.manifestations[m].expression !in rows.expressions,
      set i | i in rows.items && rows.items[i] !in rows.manifestations)
  }

  /** The auditor groups by the cleaned text, not by the normalised ISBN. */
  function CleanedIsbns(ms: map<int, Manifestation>): map<int, string> {
    map m | m in ms && ms[m].isbn13 != "" && Isbn.Clean(ms[m].isbn13) != "" :: Isbn.Clean(ms[m].isbn13)
  }

  ghost predicate IsDuplicate(cl: map<int, string>, key: string) {
    |Group(cl, key)| > 1
  }

  /** Clusters of more than one row. */
  method DuplicateClusters(keys: map<int, string>) returns (duplicates: map<string, set<int>>)
    ensures forall k :: k in duplicates <==> IsDuplicate(keys, k)
    ensures forall k :: k in duplicates ==> duplicates[k] == Group(keys, k)
  {
    var groups := GroupByKey(keys);
    duplicates := map k | k in groups && |groups[k]| > 1 :: groups[k];
    forall k | IsDuplicate(keys, k)
      ensures k in groups
    {
      var id := Element(Group(keys, k));
      assert keys[id] in groups;
    }
  }

  method AuditDuplicates(rows: Rows) returns (works: map<string, set<int>>, manifestations: map<string, set<int>>)
    ensures forall k :: k in works <==> IsDuplicate(WorkClusters(rows.works), k)
    ensures forall k :: k in works ==> works[k] == Group(WorkClusters(rows.works), k)
    ensures forall k :: k in manifestations <==> IsDuplicate(CleanedIsbns(rows.manifestations), k)
    ensures forall k :: k in manifestations ==> manifestations[k] == Group(CleanedIsbns(rows.manifestations), k)
  {
    works := DuplicateClusters(WorkClusters(rows.works));
    manifestations := DuplicateClusters(CleanedIsbns(rows.manifestations));
  }

  datatype Violation =
    | Isbn10Unnormalized(id: int)
    | InvalidChecksumIsbn10(id: int)
    | InvalidChecksumIsbn13(id: int)
    | InvalidLength(id: int)
    | WorkLevelIsbn(id: int, key: string)

  function ManifestationViolation(m: int, isbn: string): Option<Violation> {
    var cleaned := Isbn.Clean(isbn);
    if isbn == "" then None
    else if |cleaned| == 10 then
      Some(if Isbn.ValidIsbn10(cleaned) then Isbn10Unnormalized(m) else InvalidChecksumIsbn10(m))
    else if |cleaned| == 13 then
      if Isbn.ValidIsbn13(cleaned) then None else Some(InvalidChecksumIsbn13(m))
    else Some(InvalidLength(m))
  }

  /** Each violation, in terms of what the reconciliation makes of the ISBN. */
  lemma ViolationMeans(m: int, isbn: string)
    ensures var v, normal, length := ManifestationViolation(m, isbn), Isbn.Normalize(isbn), |Isbn.Clean(isbn)|;
            && (v == None <==> isbn == "" || (length == 13 && normal.Some?))
            && (v == Some(Isbn10Unnormalized(m)) <==> length == 10 && normal.Some?)
            && (v == Some(InvalidChecksumIsbn10(m)) <==> length == 10 && normal.None?)
            && (v == Some(InvalidChecksumIsbn13(m)) <==> length == 13 && normal.None?)
            && (v == Some(InvalidLength(m)) <==> isbn != "" && length != 10 && length != 13)
  {
    Isbn.CleanFixed(Isbn.Clean(isbn));
    Isbn.NormalizeAgreesWithAuditor(isbn);
    Isbn.NormalizeAgreesWithAuditor(Isbn.Clean(isbn));
  }

  ghost predicate Violates(rows: Rows, v: Violation) {
    match v
    case WorkLevelIsbn(w, key) => w in rows.works && key in ISBN_KEYS && HoldsIsbn(rows.works[w].meta, key)
    case _ => v.id in rows.manifestations && ManifestationViolation(v.id, rows.manifestations[v.id].isbn13) == Some(v)
  }

  /** Both passes: manifestation ISBNs, then ISBN keys misplaced on works. */
  method AuditIsbns(rows: Rows) returns (violations: set<Violation>)
    ensures forall v :: v in violations <==> Violates(rows, v)
  {
    violations := {};
    var pending := rows.manifestations.Keys;
    while pending != {}
      invariant pending <= rows.manifestations.Keys
      invariant forall v :: v in violations <==> Violates(rows, v) && !v.WorkLevelIsbn? && v.id !in pending
      decreases pending
    {
      ghost var e := Element(pending);
      var m :| m in pending;
      pending := pending - {m};
      var violation := ManifestationViolation(m, rows.manifestations[m].isbn13);
      if violation.Some? {
        violations := violations + {violation.value};
      }
    }
    pending := rows.works.Keys;
    while pending != {}
      invariant pending <= rows.works.Keys
      invariant forall v :: v in violations <==> Violates(rows, v) && (v.WorkLevelIsbn? ==> v.id !in pending)
      decreases pending
    {
      ghost var e := Element(pending);
      var w :| w in pending;
      pending := pending - {w};
      violations := violations
        + set key | key in ISBN_KEYS && HoldsIsbn(rows.works[w].meta, key) :: WorkLevelIsbn(w, key);
    }
  }
}
