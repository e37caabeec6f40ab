/** The import script's `main`, reduced to what it decides itself: it hands
    whatever the loader returned to the document builder, then pairs every
    document with one freshly drawn id for the vector store. The loader,
    the embedding model and the store are outside the model; the ids are a
    parameter. */
module ImportData {
  import opened Wrappers
  import opened PoseDocuments

  /** How a run stops early: the loader logged a failure and returned
      `None`, and the builder's `for pose in poses` raises `TypeError` on it
      before anything is embedded or stored. */
  datatype ImportError = PosesNotIterable

  /** One entry of the batch handed to `add_documents`: the id drawn for a
      document and the document itself. */
  datatype Stored = Stored(id: string, doc: Doc)

  /** `main`: `loaded` is the loader's result, `newId(i)` the id string of
      the i-th `uuid4()` draw. A failed load stops the run with nothing
      stored; otherwise the batch has one entry per pose, in pose order,
      entry i pairing the i-th draw with the document of pose i. */
  method RunImport(loaded: Option<seq<Pose>>, newId: nat -> string)
    returns (r: Result<seq<Stored>, ImportError>)
    ensures loaded.None? <==> r.Failure?
    ensures loaded.None? ==> r == Failure(PosesNotIterable)
    ensures loaded.Some? ==> |r.value| == |loaded.value|
    ensures loaded.Some? ==> forall i :: 0 <= i < |r.value| ==>
              && r.value[i].id == newId(i)
              && r.value[i].doc.meta == loaded.value[i]
              && r.value[i].doc.text == Text(loaded.value[i])
  {
    if loaded.None? {
      return Failure(PosesNotIterable);
    }
    var docs := CreateDocuments(loaded.value);
    var ids := seq(|docs|, i requires 0 <= i < |docs| => newId(i));
    var batch := seq(|docs|, i requires 0 <= i < |docs| => Stored(ids[i], docs[i]));
    return Success(batch);
  }
}
