/** The document manager's store: the `documents` table, the `audit_log`
    table and the operations that read and write them (adding a scanned
    document, editing and deleting documents, writing the audit log, listing
    documents and the log, and searching). The tables are a map from
    document id to row and a sequence of audit entries; timestamps are
    clock readings the caller passes in. */
module DocumentStore {
  import opened Chars
  import opened Text
  import opened SqlLike
  import opened FieldExtractor

  /** The `verification_status` every new document gets. */
  const Pending := "PENDING"

  /** The `user` every audit entry is written with. */
  const SystemUser := "SYSTEM"

  /** The `action` column of the audit log. */
  datatype Action = Add | Edit | Delete

  /** A row of `documents`. Besides the stored columns it carries the
      extracted fields the search reads; they are not columns of the table. */
  datatype Document = Document(
    rawText: string,
    dateAdded: nat,
    lastModified: nat,
    status: string,
    fields: DocumentInfo)

  /** A row of `audit_log`. */
  datatype AuditEntry = AuditEntry(
    id: nat,
    documentId: nat,
    action: Action,
    timestamp: nat,
    user: string)

  /** A line of the documents list: `id, date_added, last_modified,
      verification_status`. */
  datatype DocumentRow = DocumentRow(id: nat, dateAdded: nat, lastModified: nat, status: string)

  /** A line of the search results: the document's fields and the tag saying
      which field matched. */
  datatype SearchResult = SearchResult(
    id: nat,
    docType: string,
    docNumber: string,
    fullName: string,
    matchType: string)

  /** The entry `log_action` appends to a log of `count` entries. */
  function Entry(count: nat, docId: nat, action: Action, now: nat): AuditEntry {
    AuditEntry(count + 1, docId, action, now, SystemUser)
  }

  /** The log after an audit write: one more entry, or the same log when
      the write fails and the failure is swallowed. */
  function Appended(log: seq<AuditEntry>, docId: nat, action: Action, now: nat, ok: bool): seq<AuditEntry> {
    if ok then log + [Entry(|log|, docId, action, now)] else log
  }

  /** The log after the deletion of `ids`, `oks[i]` telling whether the
      i-th audit write succeeds. */
  function AfterDeletes(log: seq<AuditEntry>, ids: seq<nat>, oks: seq<bool>, now: nat): (r: seq<AuditEntry>)
    requires |oks| == |ids|
    ensures |log| <= |r| <= |log| + |ids|
  {
    if ids == [] then log
    else
      var n := |ids| - 1;
      Appended(AfterDeletes(log, ids[..n], oks[..n], now), ids[n], Delete, now, oks[n])
  }

  /** Some entry of `log` is about document `id`. */
  predicate Reported(log: seq<AuditEntry>, id: nat) {
    exists k :: 0 <= k < |log| && log[k].documentId == id
  }

  /** The ids of a selection, as a set. */
  function IdSet(ids: seq<nat>): set<nat> {
    set i | i in ids
  }

  /** Deleting one more id of the selection. */
  lemma DeleteStep(ids: seq<nat>, oks: seq<bool>, log: seq<AuditEntry>, now: nat, i: nat)
    requires |oks| == |ids| && i < |ids|
    ensures AfterDeletes(log, ids[..i + 1], oks[..i + 1], now)
      == Appended(AfterDeletes(log, ids[..i], oks[..i], now), ids[i], Delete, now, oks[i])
    ensures IdSet(ids[..i + 1]) == IdSet(ids[..i]) + {ids[i]}
  {
    assert ids[..i + 1][..i] == ids[..i] && oks[..i + 1][..i] == oks[..i];
  }

  /** Removing a set of keys and then one more is removing both at once. */
  lemma RemoveOneMore(m: map<nat, Document>, removed: set<nat>, id: nat)
    ensures (m - removed) - {id} == m - (removed + {id})
  {
  }

  /** A deletion keeps the log it starts from and appends only DELETE
      entries, numbered on from it, at time `now`, each about a selected
      id. */
  lemma {:induction false} DeletesAppendOnly(log: seq<AuditEntry>, ids: seq<nat>, oks: seq<bool>, now: nat)
    requires |oks| == |ids|
    ensures AfterDeletes(log, ids, oks, now)[..|log|] == log
    ensures forall k :: |log| <= k < |AfterDeletes(log, ids, oks, now)| ==>
      var e := AfterDeletes(log, ids, oks, now)[k];
      e.id == k + 1 && e.action == Delete && e.timestamp == now && e.user == SystemUser && e.documentId in ids
  {
    if ids != [] {
      var n := |ids| - 1;
      DeletesAppendOnly(log, ids[..n], oks[..n], now);
      var front := AfterDeletes(log, ids[..n], oks[..n], now);
      assert forall x :: x in ids[..n] ==> x in ids;
      if oks[n] {
        assert AfterDeletes(log, ids, oks, now) == front + [Entry(|front|, ids[n], Delete, now)];
      }
    }
  }

  /** Every id of the selection whose audit write succeeds gets a DELETE
      entry. */
  lemma {:induction false} DeleteLogged(log: seq<AuditEntry>, ids: seq<nat>, oks: seq<bool>, now: nat, i: nat)
    requires |oks| == |ids| && i < |ids| && oks[i]
    ensures Reported(AfterDeletes(log, ids, oks, now), ids[i])
  {
    var n := |ids| - 1;
    var front := AfterDeletes(log, ids[..n], oks[..n], now);
    if i < n {
      DeleteLogged(log, ids[..n], oks[..n], now, i);
      var k :| 0 <= k < |front| && front[k].documentId == ids[..n][i];
      AppendedKeeps(front, ids[n], Delete, now, oks[n], k);
    } else {
      assert AfterDeletes(log, ids, oks, now)[|front|].documentId == ids[n];
    }
  }

  /** An audit write keeps every entry already in the log. */
  lemma AppendedKeeps(log: seq<AuditEntry>, docId: nat, action: Action, now: nat, ok: bool, k: nat)
    requires k < |log|
    ensures k < |Appended(log, docId, action, now, ok)| && Appended(log, docId, action, now, ok)[k] == log[k]
  {
  }

  /** `SELECT COALESCE(MAX(id), 0)`: the largest id, or 0 when there is
      none. */
  method MaxId(ids: set<nat>) returns (m: nat)
    ensures forall k :: k in ids ==> k <= m
    ensures ids == {} ==> m == 0
    ensures ids != {} ==> m in ids
  {
    if ids == {} {
      return 0;
    }
    m :| m in ids;
    var rest := ids - {m};
    while rest != {}
      invariant rest <= ids && m in ids
      invariant forall k :: k in ids && k !in rest ==> k <= m
      decreases |rest|
    {
      var k :| k in rest;
      if k > m {
        m := k;
      }
      rest := rest - {k};
    }
  }

  /** The smallest of a non-empty set of ids. */
  method MinId(ids: set<nat>) returns (m: nat)
    requires ids != {}
    ensures m in ids && forall k :: k in ids ==> m <= k
  {
    m :| m in ids;
    var rest := ids - {m};
    while rest != {}
      invariant rest <= ids && m in ids
      invariant forall k :: k in ids && k !in rest ==> m <= k
      decreases |rest|
    {
      var k :| k in rest;
      if k < m {
        m := k;
      }
      rest := rest - {k};
    }
  }

  /** The ids in ascending order (`ORDER BY id ASC`). */
  method SortedIds(keys: set<nat>) returns (ids: seq<nat>)
    ensures forall i :: i in ids <==> i in keys
    ensures |ids| == |keys|
    ensures forall k, m :: 0 <= k < m < |ids| ==> ids[k] < ids[m]
  {
    ids := [];
    var rest := keys;
    while rest != {}
      invariant rest <= keys
      invariant forall i :: i in ids <==> i in keys && i !in rest
      invariant |ids| + |rest| == |keys|
      invariant forall k, m :: 0 <= k < m < |ids| ==> ids[k] < ids[m]
      invariant forall k, i :: 0 <= k < |ids| && i in rest ==> ids[k] < i
      decreases |rest|
    {
      var m := MinId(rest);
      ids := ids + [m];
      rest := rest - {m};
    }
  }

  /** Whether the search pattern `'%' || term || '%'` matches the document
      number or the full name (`doc_number LIKE ? OR full_name LIKE ?`). */
  predicate Matches(d: Document, term: string) {
    Like(d.fields.docNumber, "%" + term + "%") || Like(d.fields.fullName, "%" + term + "%")
  }

  /** The tag of a search result: `"Number"` when the term is a substring of
      the document number (case-sensitive), `"Name"` otherwise. */
  function MatchType(d: Document, term: string): (tag: string)
    ensures tag == "Number" <==> Contains(d.fields.docNumber, term)
    ensures tag == "Number" || tag == "Name"
  {
    if Contains(d.fields.docNumber, term) then "Number" else "Name"
  }

  function ResultOf(id: nat, d: Document, term: string): SearchResult {
    SearchResult(id, d.fields.docType, d.fields.docNumber, d.fields.fullName, MatchType(d, term))
  }

  class Store {
    var documents: map<nat, Document>
    var auditLog: seq<AuditEntry>
    /** The latest timestamp any operation has used. */
    var clock: nat

    /** Ids are positive; every document was added no later than it was
        last modified, and both happened by `clock`; a larger id was added no
        earlier; audit entries are numbered 1, 2, ... in the order they were
        written, by `SYSTEM`, at non-decreasing times up to `clock`. */
    ghost predicate Valid()
      reads this
    {
      && (forall id :: id in documents ==>
            id >= 1 && documents[id].dateAdded <= documents[id].lastModified <= clock)
      && (forall i, j :: i in documents && j in documents && i < j ==>
            documents[i].dateAdded <= documents[j].dateAdded)
      && (forall k :: 0 <= k < |auditLog| ==>
            auditLog[k].id == k + 1 && auditLog[k].user == SystemUser && auditLog[k].timestamp <= clock)
      && (forall k, m :: 0 <= k < m < |auditLog| ==> auditLog[k].timestamp <= auditLog[m].timestamp)
    }

    /** A fresh database: both tables empty. */
    constructor ()
      ensures Valid()
      ensures documents == map[] && auditLog == [] && clock == 0
    {
      documents := map[];
      auditLog := [];
      clock := 0;
    }

    /** `log_action`: appends an entry by `SYSTEM` with the next id, or,
        when the write fails, swallows the failure and changes nothing. */
    method LogAction(docId: nat, action: Action, now: nat, ok: bool)
      requires Valid() && clock <= now
      modifies this
      ensures Valid()
      ensures documents == old(documents) && clock == now
      ensures auditLog == Appended(old(auditLog), docId, action, now, ok)
    {
      clock := now;
      auditLog := Appended(auditLog, docId, action, now, ok);
    }

    /** The `INSERT` of `save_document`: a new row under an id larger than
        every stored one, added and modified at `now`, status `PENDING`. */
    method Insert(id: nat, rawText: string, fields: DocumentInfo, now: nat)
      requires Valid() && clock <= now
      requires id >= 1 && forall k :: k in documents ==> k < id
      modifies this
      ensures Valid()
      ensures documents == old(documents)[id := Document(rawText, now, now, Pending, fields)]
      ensures auditLog == old(auditLog) && clock == now
    {
      clock := now;
      documents := documents[id := Document(rawText, now, now, Pending, fields)];
    }

    /** The `UPDATE` of `save_changes`: the row with that id, if there is
        one, gets the new raw text and `now` as its modification time. */
    method Update(id: nat, rawText: string, now: nat)
      requires Valid() && clock <= now
      modifies this
      ensures Valid()
      ensures documents == if id in old(documents)
        then old(documents)[id := old(documents)[id].(rawText := rawText, lastModified := now)]
        else old(documents)
      ensures auditLog == old(auditLog) && clock == now
    {
      clock := now;
      if id in documents {
        documents := documents[id := documents[id].(rawText := rawText, lastModified := now)];
      }
    }

    /** `save_document`: the new id is one more than the largest id (1 in an
        empty table); the row is stored with both timestamps `now` and
        status `PENDING`, and committed before the ADD entry is written. */
    method Create(rawText: string, fields: DocumentInfo, now: nat, auditOk: bool) returns (id: nat)
      requires Valid() && clock <= now
      modifies this
      ensures Valid()
      ensures id >= 1 && id !in old(documents)
      ensures forall k :: k in old(documents) ==> k < id
      ensures old(documents) != map[] ==> id - 1 in old(documents)
      ensures old(documents) == map[] ==> id == 1
      ensures documents == old(documents)[id := Document(rawText, now, now, Pending, fields)]
      ensures auditLog == Appended(old(auditLog), id, Add, now, auditOk)
      ensures clock == now
    {
      var max := MaxId(documents.Keys);
      assert documents == map[] <==> documents.Keys == {};
      id := max + 1;
      Insert(id, rawText, fields, now);
      LogAction(id, Add, now, auditOk);
    }

    /** The check before the edit dialog opens: the stored raw text, or
        nothing when there is no document with that id. */
    method LoadForEdit(id: nat) returns (text: Option<string>)
      ensures text.Some? <==> id in documents
      ensures text.Some? ==> text.value == documents[id].rawText
    {
      if id in documents {
        text := Some(documents[id].rawText);
      } else {
        text := None;
      }
    }

    /** `save_changes`: the edited text, stripped, replaces the raw text and
        `now` becomes the modification time; the update does not check that
        the document still exists, and the EDIT entry is written either way. */
    method SaveChanges(id: nat, text: string, now: nat, auditOk: bool)
      requires Valid() && clock <= now
      modifies this
      ensures Valid()
      ensures documents == if id in old(documents)
        then old(documents)[id := old(documents)[id].(rawText := Strip(text), lastModified := now)]
        else old(documents)
      ensures auditLog == Appended(old(auditLog), id, Edit, now, auditOk)
      ensures clock == now
    {
      Update(id, Strip(text), now);
      LogAction(id, Edit, now, auditOk);
    }

    /** `edit_selected_document` followed by `save_changes`: an id that is not
        there is refused with nothing changed; otherwise only that document's
        raw text and modification time change and one EDIT entry is written. */
    method EditDocument(id: nat, text: string, now: nat, auditOk: bool) returns (found: bool)
      requires Valid() && clock <= now
      modifies this
      ensures Valid()
      ensures found <==> id in old(documents)
      ensures !found ==> documents == old(documents) && auditLog == old(auditLog) && clock == old(clock)
      ensures found ==> clock == now
      ensures found ==>
        && id in documents
        && documents[id].rawText == Strip(text)
        && documents[id].lastModified == now
        && documents[id].dateAdded == old(documents)[id].dateAdded
        && documents[id].status == old(documents)[id].status
        && documents[id].fields == old(documents)[id].fields
        && documents.Keys == old(documents).Keys
        && (forall k :: k in documents && k != id ==> documents[k] == old(documents)[k])
        && auditLog == Appended(old(auditLog), id, Edit, now, auditOk)
    {
      var current := LoadForEdit(id);
      found := current.Some?;
      if found {
        SaveChanges(id, text, now, auditOk);
      }
    }

    /** The clock moves on to `now`; the tables do not change. */
    method Tick(now: nat)
      requires Valid() && clock <= now
      modifies this
      ensures Valid()
      ensures documents == old(documents) && auditLog == old(auditLog) && clock == now
    {
      clock := now;
    }

    /** One step of the deletion: `DELETE FROM documents WHERE id = ?`
        removes the row if it is there, then the DELETE entry is written. */
    method DeleteOne(id: nat, now: nat, auditOk: bool)
      requires Valid() && clock <= now
      modifies this
      ensures Valid()
      ensures documents == old(documents) - {id}
      ensures auditLog == Appended(old(auditLog), id, Delete, now, auditOk)
      ensures clock == now
    {
      documents := documents - {id};
      LogAction(id, Delete, now, auditOk);
    }

    /** `delete_selected_document`: each selected id is deleted, whether or
        not it is there, and a DELETE entry is written for it. */
    method DeleteDocuments(ids: seq<nat>, now: nat, auditOks: seq<bool>)
      requires Valid() && clock <= now && |auditOks| == |ids|
      modifies this
      ensures Valid()
      ensures documents == old(documents) - IdSet(ids)
      ensures auditLog == AfterDeletes(old(auditLog), ids, auditOks, now)
      ensures clock == now
    {
      Tick(now);
      ghost var docs0, log0 := documents, auditLog;
      var i := 0;
      while i < |ids|
        invariant 0 <= i <= |ids|
        invariant Valid() && clock == now
        invariant documents == docs0 - IdSet(ids[..i])
        invariant auditLog == AfterDeletes(log0, ids[..i], auditOks[..i], now)
      {
        DeleteStep(ids, auditOks, log0, now, i);
        RemoveOneMore(docs0, IdSet(ids[..i]), ids[i]);
        DeleteOne(ids[i], now, auditOks[i]);
        i := i + 1;
      }
      assert ids[..i] == ids && auditOks[..i] == auditOks;
    }

    /** Adding a document and then deleting it leaves the documents as they
        were, and the log keeps the ADD entry and gains the DELETE entry
        after it. */
    method AddThenDelete(rawText: string, fields: DocumentInfo, added: nat, deleted: nat) returns (id: nat)
      requires Valid() && clock <= added <= deleted
      modifies this
      ensures Valid()
      ensures id !in documents && documents == old(documents)
      ensures auditLog == old(auditLog)
        + [Entry(|old(auditLog)|, id, Add, added), Entry(|old(auditLog)| + 1, id, Delete, deleted)]
      ensures clock == deleted
    {
      id := Create(rawText, fields, added, true);
      DeleteDocuments([id], deleted, [true]);
      assert [id][..0] == [] && [true][..0] == [];
      assert (set i | i in [id]) == {id};
      assert old(documents)[id := Document(rawText, added, added, Pending, fields)] - {id} == old(documents);
    }

    /** `load_documents`: every document once, by ascending id. */
    method LoadDocuments() returns (rows: seq<DocumentRow>)
      ensures |rows| == |documents|
      ensures forall k, m :: 0 <= k < m < |rows| ==> rows[k].id < rows[m].id
      ensures forall k :: 0 <= k < |rows| ==> RowOf(rows[k])
      ensures forall id :: id in documents ==> exists k :: 0 <= k < |rows| && rows[k].id == id
    {
      var ids := SortedIds(documents.Keys);
      rows := [];
      var i := 0;
      while i < |ids|
        invariant 0 <= i <= |ids| && |rows| == i
        invariant forall k :: 0 <= k < i ==> rows[k].id == ids[k]
        invariant forall k :: 0 <= k < i ==> RowOf(rows[k])
      {
        var d := documents[ids[i]];
        rows := rows + [DocumentRow(ids[i], d.dateAdded, d.lastModified, d.status)];
        i := i + 1;
      }
      forall id | id in documents ensures exists k :: 0 <= k < |rows| && rows[k].id == id {
        var k :| 0 <= k < |ids| && ids[k] == id;
        assert rows[k].id == id;
      }
    }

    /** `load_audit_log`: every entry, latest timestamp first; entries with
        equal timestamps come newest first. */
    method LoadAuditLog() returns (entries: seq<AuditEntry>)
      requires Valid()
      ensures |entries| == |auditLog|
      ensures forall k :: 0 <= k < |entries| ==> entries[k] == auditLog[|auditLog| - 1 - k]
      ensures forall k, m :: 0 <= k < m < |entries| ==> entries[k].timestamp >= entries[m].timestamp
      ensures forall e :: e in entries <==> e in auditLog
    {
      entries := [];
      var i := |auditLog|;
      while i > 0
        invariant 0 <= i <= |auditLog| && |entries| == |auditLog| - i
        invariant forall k :: 0 <= k < |entries| ==> entries[k] == auditLog[|auditLog| - 1 - k]
      {
        i := i - 1;
        entries := entries + [auditLog[i]];
      }
      forall e | e in auditLog ensures e in entries {
        var k :| 0 <= k < |auditLog| && auditLog[k] == e;
        assert entries[|auditLog| - 1 - k] == e;
      }
    }

    /** `r` is the list line of a stored document. */
    ghost predicate RowOf(r: DocumentRow)
      reads this
    {
      r.id in documents
      && r == DocumentRow(r.id, documents[r.id].dateAdded, documents[r.id].lastModified, documents[r.id].status)
    }

    /** `on_search_change`: nothing for a blank term; otherwise every
        document whose number or name is `LIKE '%term%'`, each once, latest
        added first (newest id first among equal times), tagged by whether
        the term is a substring of its number. */
    method Search(term: string) returns (results: seq<SearchResult>)
      requires Valid()
      ensures Strip(term) == [] ==> results == []
      ensures forall k :: 0 <= k < |results| ==> Hit(documents, results[k], Strip(term))
      ensures Strip(term) != [] ==>
        forall id :: id in documents && Matches(documents[id], Strip(term)) ==> Returned(results, id)
      ensures forall k, m :: 0 <= k < m < |results| ==> results[k].id > results[m].id
      ensures forall k, m :: 0 <= k < m < |results| ==> NotLater(documents, results[m].id, results[k].id)
    {
      var t := Strip(term);
      results := [];
      if t == [] {
        return;
      }
      var ids := SortedIds(documents.Keys);
      var i := |ids|;
      while i > 0
        invariant 0 <= i <= |ids|
        invariant results == Scan(documents, ids[i..], t)
      {
        i := i - 1;
        assert ids[i..][1..] == ids[i + 1..];
        var id := ids[i];
        var d := documents[id];
        if Matches(d, t) {
          results := results + [ResultOf(id, d, t)];
        }
      }
      assert ids[0..] == ids;
      ScanSound(documents, ids, t);
      ScanComplete(documents, ids, t);
      ScanDescending(documents, ids, t);
      forall k, m | 0 <= k < m < |results| ensures NotLater(documents, results[m].id, results[k].id) {
        assert Hit(documents, results[k], t) && Hit(documents, results[m], t);
      }
    }
  }

  /** `r` is the search result of a stored document the term matches. */
  ghost predicate Hit(docs: map<nat, Document>, r: SearchResult, term: string) {
    r.id in docs && Matches(docs[r.id], term) && r == ResultOf(r.id, docs[r.id], term)
  }

  /** Some result is about document `id`. */
  predicate Returned(results: seq<SearchResult>, id: nat) {
    exists k :: 0 <= k < |results| && results[k].id == id
  }

  /** Document `i` was added no later than document `j`. */
  ghost predicate NotLater(docs: map<nat, Document>, i: nat, j: nat) {
    i in docs && j in docs && docs[i].dateAdded <= docs[j].dateAdded
  }

  /** The search results for the documents `ids` (ascending), from the last
      id to the first: the query's `ORDER BY date_added DESC`. */
  function Scan(docs: map<nat, Document>, ids: seq<nat>, t: string): seq<SearchResult> {
    if ids == [] then []
    else
      var id := ids[0];
      Scan(docs, ids[1..], t)
      + (if id in docs && Matches(docs[id], t) then [ResultOf(id, docs[id], t)] else [])
  }

  /** Every result is a matching document of the scanned ones. */
  lemma {:induction false} ScanSound(docs: map<nat, Document>, ids: seq<nat>, t: string)
    ensures forall k :: 0 <= k < |Scan(docs, ids, t)| ==>
      Hit(docs, Scan(docs, ids, t)[k], t) && Scan(docs, ids, t)[k].id in ids
  {
    if ids != [] {
      ScanSound(docs, ids[1..], t);
    }
  }

  /** Every matching document among the scanned ones is in the results. */
  lemma {:induction false} ScanComplete(docs: map<nat, Document>, ids: seq<nat>, t: string)
    ensures forall id :: id in ids && id in docs && Matches(docs[id], t) ==> Returned(Scan(docs, ids, t), id)
  {
    if ids != [] {
      ScanComplete(docs, ids[1..], t);
      var rest := Scan(docs, ids[1..], t);
      var r := Scan(docs, ids, t);
      forall id | id in ids && id in docs && Matches(docs[id], t) ensures Returned(r, id) {
        if id == ids[0] {
          assert r[|rest|].id == id;
        } else {
          assert id in ids[1..];
          var k :| 0 <= k < |rest| && rest[k].id == id;
          assert r[k] == rest[k];
        }
      }
    }
  }

  /** Scanning ascending ids gives strictly descending result ids. */
  lemma {:induction false} ScanDescending(docs: map<nat, Document>, ids: seq<nat>, t: string)
    requires forall k, m :: 0 <= k < m < |ids| ==> ids[k] < ids[m]
    ensures forall k, m :: 0 <= k < m < |Scan(docs, ids, t)| ==> Scan(docs, ids, t)[k].id > Scan(docs, ids, t)[m].id
  {
    if ids != [] {
      ScanDescending(docs, ids[1..], t);
      ScanSound(docs, ids[1..], t);
      var rest := Scan(docs, ids[1..], t);
      forall k | 0 <= k < |rest| ensures rest[k].id > ids[0] {
        var j :| 0 <= j < |ids[1..]| && ids[1..][j] == rest[k].id;
        assert ids[1 + j] == rest[k].id;
      }
    }
  }

  /** For a term without `%` or `_`, the search condition is a substring
      test on the number and the name that ignores ASCII case. */
  lemma MatchesIgnoresCase(d: Document, t: string)
    requires NoWildcards(t)
    ensures Matches(d, t) <==>
      Contains(ToUpper(d.fields.docNumber), ToUpper(t)) || Contains(ToUpper(d.fields.fullName), ToUpper(t))
  {
    LikeIsFoldedContains(d.fields.docNumber, t);
    LikeIsFoldedContains(d.fields.fullName, t);
  }

  /** A document whose number contains the term is always found, and tagged
      `"Number"`. */
  lemma NumberHitsAreTagged(d: Document, t: string)
    requires NoWildcards(t) && Contains(d.fields.docNumber, t)
    ensures Matches(d, t) && MatchType(d, t) == "Number"
  {
    ContainsIsLike(d.fields.docNumber, t);
  }

  /** The query matches without regard to case but the tag does not: the
      number `AB1234` is found by the term `ab12` and tagged `"Name"`. */
  lemma TagIsCaseSensitive()
    ensures var d := Document("", 0, 0, Pending, DocumentInfo("", "AB1234", "", "", "", ""));
      Matches(d, "ab12") && MatchType(d, "ab12") == "Name"
  {
    var number, t := "AB1234", "ab12";
    var d := Document("", 0, 0, Pending, DocumentInfo("", number, "", "", "", ""));
    assert FoldedAt(number, 0, t);
    LikeContains(number, t);
    forall p | 0 <= p <= |number| ensures !OccursAt(number, p, t) {
      if p + |t| <= |number| {
        assert number[p] != t[0];
      }
    }
  }

  /** The columns of the `documents` table as the database creates it. */
  function DocumentColumns(): seq<string> { ["id", "raw_text", "date_added", "last_modified", "verification_status"]
  }

  /** The columns the search query names, in the order they appear in it. */
  function SearchColumns(): seq<string> { ["id", "doc_type", "doc_number", "full_name", "doc_number", "full_name", "date_added"]
  }

  /** The first of `cols` that is not one of `known`. */
  function FirstUnknown(cols: seq<string>, known: seq<string>): (r: Option<string>)
    ensures r.None? <==> forall c :: c in cols ==> c in known
    ensures r.Some? ==> r.value in cols && r.value !in known
    ensures r.Some? ==> exists i :: (0 <= i < |cols| && cols[i] == r.value
      && forall m :: 0 <= m < i ==> cols[m] in known)
  {
    if cols == [] then None
    else if cols[0] !in known then Some(cols[0])
    else
      var r := FirstUnknown(cols[1..], known);
      assert forall c :: c in cols ==> c == cols[0] || c in cols[1..];
      if r.Some? then
        var i :| 0 <= i < |cols[1..]| && cols[1..][i] == r.value
          && forall m :: 0 <= m < i ==> cols[1..][m] in known;
        assert forall m :: 0 < m <= i ==> cols[m] == cols[1..][m - 1];
        assert cols[i + 1] == r.value;
        r
      else r
  }

  /** The search as written: a blank term returns before the query runs;
      any other term runs a query naming columns the table does not have,
      and the database refuses it with `no such column`, whose name is
      returned. */
  function SearchAsWritten(term: string): (error: Option<string>)
    ensures Strip(term) == [] ==> error.None?
  {
    if Strip(term) == [] then None else FirstUnknown(SearchColumns(), DocumentColumns())
  }

  /** Every search for a non-blank term fails, on the column `doc_type`. */
  lemma SearchAsWrittenFails(term: string)
    requires Strip(term) != []
    ensures SearchAsWritten(term) == Some("doc_type")
  {
    var known, cols := DocumentColumns(), SearchColumns();
    assert cols[0] == known[0];
    assert cols[1..][0] == "doc_type";
    forall c | c in known ensures c != "doc_type" {
      assert |c| != 8 || c[0] != 'd';
    }
  }
}
