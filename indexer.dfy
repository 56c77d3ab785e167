/**
  The top level of `mailgunflanker/2es.py`: it walks the mail directory, gives
  every file it visits the next id (1, 2, 3, ...) and indexes the document built
  for that file's message under that id.  The directory walk and file reading
  are replaced by the sequence of parsed messages in visiting order, and the
  Elasticsearch `index` call by the emitted `(id, document)` requests.
*/
module Indexer {
  import opened Wrappers
  import opened EmailDoc
  import Mime

  /** One `es.index(..., id=id, body=doc)` call. */
  datatype IndexRequest = IndexRequest(id: int, doc: Document)

  /**
    How the walk ends: after the last file, or at the file (given by its id)
    whose message has no content type, where the script raises and stops.
  */
  datatype WalkOutcome = Completed | Stopped(id: int, error: BuildError)

  /**
    Visits `files` in order with the global counter `id`.  The n-th request
    carries id n and the document of the n-th file; the walk stops at the first
    message the script cannot index, after emitting the requests before it.
  */
  method IndexAll(files: seq<Mime.Message>) returns (emitted: seq<IndexRequest>, outcome: WalkOutcome)
    ensures |emitted| <= |files|
    ensures forall n :: 0 <= n < |emitted| ==>
      emitted[n].id == n + 1 && DocumentOf(files[n]) == Ok(emitted[n].doc)
    ensures forall m, n :: 0 <= m < n < |emitted| ==> emitted[m].id < emitted[n].id
    ensures outcome.Completed? <==> |emitted| == |files|
    ensures outcome.Stopped? ==>
      outcome.id == |emitted| + 1 && DocumentOf(files[|emitted|]) == Err(outcome.error)
  {
    var id := 0;
    emitted := [];
    var i := 0;
    while i < |files|
      invariant 0 <= i <= |files|
      invariant id == i && |emitted| == i
      invariant forall n :: 0 <= n < i ==>
        emitted[n].id == n + 1 && DocumentOf(files[n]) == Ok(emitted[n].doc)
    {
      id := id + 1;
      var doc := BuildDocument(files[i]);
      if doc.Err? {
        return emitted, Stopped(id, doc.error);
      }
      emitted := emitted + [IndexRequest(id, doc.value)];
      i := i + 1;
    }
    outcome := Completed;
  }
}
