/**
 The client-side logic of `build_classifier`: the optional settings read from the
 environment, the container SAS URL and its validity window, and the document types derived
 from the `.jsonl` manifests found in the container (`get_doctypes`).

 The environment values, the blob listing, the SAS token and the clock readings are
 parameters; the build request is returned instead of being sent.
 */
module BuildClassifier {
  import opened Wrappers
  import opened Paths

  /** `value if value else None` for an environment variable's value. */
  function EnvDefault(value: string): (r: Option<string>)
    ensures r == None <==> value == ""
    ensures r.Some? ==> r.value == value
  {
    if value != "" then Some(value) else None
  }

  // ---------------------------------------------------------------------------------------
  // The container SAS URL
  // ---------------------------------------------------------------------------------------

  /** `f"{container_client.url}?{container_sas_token}"` */
  function ContainerSasUrl(containerUrl: string, token: string): (r: string)
  {
    containerUrl + "?" + token
  }

  /** Splits a URL at its first `?` into the part before and the query after it. */
  function SplitQuery(url: string): (r: (string, string))
  {
    var i := IndexOf(url, '?');
    if i < |url| then (url[..i], url[i + 1..]) else (url, "")
  }

  /** For a container URL without a query, the SAS URL splits back into that URL and the token. */
  lemma ContainerSasUrlRoundTrip(containerUrl: string, token: string)
    requires '?' !in containerUrl
    ensures SplitQuery(ContainerSasUrl(containerUrl, token)) == (containerUrl, token)
  {
    var url := ContainerSasUrl(containerUrl, token);
    assert url[|containerUrl|] == '?';
    forall j | 0 <= j < |containerUrl| ensures url[j] != '?' {
      assert url[j] == containerUrl[j];
    }
    assert IndexOf(url, '?') == |containerUrl|;
    assert url[..|containerUrl|] == containerUrl;
    assert url[|containerUrl| + 1..] == token;
  }

  /** The SAS token's validity window, in seconds. */
  datatype SasWindow = SasWindow(start: int, expiry: int)

  const MinuteSeconds: int := 60

  /**
   The window of `create_container_sas_url`: `start` one minute before the first clock
   reading, `expiry` five minutes after the second (the code reads the clock twice).
   */
  function SasWindowAt(firstNow: int, secondNow: int): (w: SasWindow)
    ensures w.start + MinuteSeconds == firstNow
    ensures w.expiry - 5 * MinuteSeconds == secondNow
  {
    SasWindow(firstNow - MinuteSeconds, secondNow + 5 * MinuteSeconds)
  }

  /**
   With a clock that does not run backwards between the two readings, the window starts
   before it expires, lasts at least six minutes and covers both readings.
   */
  lemma SasWindowOrdered(firstNow: int, secondNow: int)
    requires firstNow <= secondNow
    ensures SasWindowAt(firstNow, secondNow).start < firstNow <= secondNow < SasWindowAt(firstNow, secondNow).expiry
    ensures SasWindowAt(firstNow, secondNow).expiry - SasWindowAt(firstNow, secondNow).start >= 6 * MinuteSeconds
  {
  }

  // ---------------------------------------------------------------------------------------
  // Document types from the manifests in the container
  // ---------------------------------------------------------------------------------------

  /** The training source of one document type. */
  datatype DocTypeDetails = DocTypeDetails(containerUrl: string, fileList: string)

  /** `blob.name.endswith(".jsonl")` */
  predicate IsManifest(blobName: string)
  {
    EndsWith(blobName, ".jsonl")
  }

  /** `os.path.splitext(blob.name)[0]` */
  function DocTypeOf(blobName: string): (r: string)
  {
    SplitExtRoot(blobName)
  }

  /** `doc_types_list`: the doc type of every manifest blob, in listing order. */
  function DocTypeLabels(blobs: seq<string>): (r: seq<string>)
  {
    if blobs == [] then []
    else
      var last := blobs[|blobs| - 1];
      DocTypeLabels(blobs[..|blobs| - 1]) + (if IsManifest(last) then [DocTypeOf(last)] else [])
  }

  /** Blob `blobName` is a manifest whose doc type is `t`. */
  predicate Yields(blobName: string, t: string)
  {
    IsManifest(blobName) && DocTypeOf(blobName) == t
  }

  /** A label is a doc type exactly when some manifest blob in the listing yields it. */
  lemma {:induction false} DocTypeLabelsMember(blobs: seq<string>, t: string)
    ensures t in DocTypeLabels(blobs) <==> exists i :: 0 <= i < |blobs| && Yields(blobs[i], t)
  {
    if blobs != [] {
      var n := |blobs| - 1;
      var pre := blobs[..n];
      var tail := if IsManifest(blobs[n]) then [DocTypeOf(blobs[n])] else [];
      assert DocTypeLabels(blobs) == DocTypeLabels(pre) + tail;
      assert t in tail <==> Yields(blobs[n], t);
      DocTypeLabelsMember(pre, t);
      if t in DocTypeLabels(pre) {
        var i :| 0 <= i < |pre| && Yields(pre[i], t);
        assert blobs[i] == pre[i];
      }
      if exists i :: 0 <= i < |blobs| && Yields(blobs[i], t) {
        var i :| 0 <= i < |blobs| && Yields(blobs[i], t);
        if i < n {
          assert pre[i] == blobs[i];
        }
      }
    }
  }

  /** A manifest blob whose name has a stem yields the name without `.jsonl`, and `file_list` re-forms the name. */
  lemma DocTypeStripsJsonl(blobName: string)
    requires IsManifest(blobName) && HasStem(blobName, |blobName| - 6)
    ensures DocTypeOf(blobName) + ".jsonl" == blobName
  {
    SplitExtRootJsonl(blobName);
    assert blobName == blobName[..|blobName| - 6] + blobName[|blobName| - 6..];
  }

  /** Without a stem the name is kept whole: blob `.jsonl` becomes doc type `.jsonl` with file list `.jsonl.jsonl`. */
  lemma DocTypeWithoutStem()
    ensures IsManifest(".jsonl")
    ensures DocTypeOf(".jsonl") == ".jsonl"
    ensures DocTypeOf(".jsonl") + ".jsonl" != ".jsonl"
  {
    SplitExtRootDotOnly();
  }

  /**
   `get_doctypes`: collects the doc types of the manifest blobs, then maps each to the
   container SAS URL and its manifest `<doc type>.jsonl`.
   */
  method GetDocTypes(blobs: seq<string>, containerSasUrl: string) returns (docTypes: map<string, DocTypeDetails>)
    ensures forall t :: t in docTypes <==> t in DocTypeLabels(blobs)
    ensures forall t :: t in docTypes ==> docTypes[t] == DocTypeDetails(containerSasUrl, t + ".jsonl")
  {
    var docTypesList: seq<string> := [];
    for i := 0 to |blobs|
      invariant docTypesList == DocTypeLabels(blobs[..i])
    {
      assert blobs[..i + 1][..i] == blobs[..i];
      if IsManifest(blobs[i]) {
        docTypesList := docTypesList + [DocTypeOf(blobs[i])];
      }
    }
    assert blobs[..|blobs|] == blobs;
    docTypes := map[];
    for j := 0 to |docTypesList|
      invariant forall t :: t in docTypes <==> t in docTypesList[..j]
      invariant forall t :: t in docTypes ==> docTypes[t] == DocTypeDetails(containerSasUrl, t + ".jsonl")
    {
      var docType := docTypesList[j];
      assert docTypesList[..j + 1] == docTypesList[..j] + [docType];
      docTypes := docTypes[docType := DocTypeDetails(containerSasUrl, docType + ".jsonl")];
    }
    assert docTypesList[..|docTypesList|] == docTypesList;
  }

  /** The request `build_classifier` submits. */
  datatype BuildRequest = BuildRequest(
    classifierId: string,
    baseClassifierId: Option<string>,
    description: Option<string>,
    docTypes: map<string, DocTypeDetails>)

  /**
   `build_classifier` up to submission: the optional settings, a fresh classifier id, and
   doc types that all train from the same container SAS URL.
   */
  method BuildClassifierRequest(
    baseClassifierEnv: string, descriptionEnv: string, freshId: string,
    containerUrl: string, sasToken: string, blobs: seq<string>)
    returns (request: BuildRequest)
    ensures request.classifierId == freshId
    ensures request.baseClassifierId == EnvDefault(baseClassifierEnv)
    ensures request.description == EnvDefault(descriptionEnv)
    ensures forall t :: t in request.docTypes <==> t in DocTypeLabels(blobs)
    ensures forall t :: t in request.docTypes ==>
              request.docTypes[t].containerUrl == ContainerSasUrl(containerUrl, sasToken)
              && request.docTypes[t].fileList == t + ".jsonl"
  {
    var baseClassifierId := EnvDefault(baseClassifierEnv);
    var classifierDescription := EnvDefault(descriptionEnv);
    var containerSasUrl := ContainerSasUrl(containerUrl, sasToken);
    var docTypes := GetDocTypes(blobs, containerSasUrl);
    request := BuildRequest(freshId, baseClassifierId, classifierDescription, docTypes);
  }
}
