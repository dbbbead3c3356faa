/**
 How the scripts fit together: the manifests `upload_documents` uploads are what
 `get_doctypes` turns into document types, and the OCR outputs `analyze_layout` leaves next
 to the documents are uploaded with them without becoming document types.
 */
module Pipeline {
  import opened Paths
  import UploadDocuments
  import BuildClassifier

  /** A directory name that round-trips: no separator, and not made only of dots. */
  predicate PlainName(name: string)
  {
    '\\' !in name && '/' !in name && exists i :: 0 <= i < |name| && name[i] != '.'
  }

  /**
   Round trip: the manifest of directory `d`, uploaded as `<d>.jsonl`, yields doc type `d`,
   whose `file_list` is again `<d>.jsonl`. The manifest sits at the top level of the container.
   */
  lemma ManifestBecomesDocType(d: UploadDocuments.Dir)
    requires PlainName(d.name)
    ensures BuildClassifier.IsManifest(UploadDocuments.ManifestBlob(d))
    ensures BuildClassifier.DocTypeOf(UploadDocuments.ManifestBlob(d)) == d.name
    ensures d.name + ".jsonl" == UploadDocuments.ManifestBlob(d)
    ensures '/' !in UploadDocuments.ManifestBlob(d)
  {
    UploadDocuments.ManifestNames(d);
    var blob := d.name + ".jsonl";
    var n := |d.name|;
    assert blob[n..] == ".jsonl";
    assert blob[..n] == d.name;
    forall j | 0 <= j < |blob| ensures blob[j] != '/' {
      if j < n {
        assert blob[j] == d.name[j];
      } else {
        assert blob[j] == ".jsonl"[j - n];
      }
    }
    assert LastIndexOf(blob, '/') == -1;
    var i :| 0 <= i < n && d.name[i] != '.';
    assert blob[i] == d.name[i];
    assert HasStem(blob, |blob| - 6);
    SplitExtRootJsonl(blob);
  }

  /**
   The blob names `walk_blobs()` lists among `blobs`: with its default delimiter `/` it lists
   only the names without a `/`. (It also lists a `dir/` prefix per virtual directory, which
   never ends in `.jsonl` and is left out here.)
   */
  function TopLevel(blobs: seq<string>): (r: seq<string>)
    ensures forall x :: x in r <==> x in blobs && '/' !in x
  {
    if blobs == [] then []
    else
      var last := blobs[|blobs| - 1];
      TopLevel(blobs[..|blobs| - 1]) + (if '/' !in last then [last] else [])
  }

  /**
   Every directory of an upload run with a plain name becomes a document type of the
   classifier built from the container's top-level listing, trained from that directory's
   manifest.
   */
  lemma UploadedDirectoriesAreDocTypes(tree: seq<UploadDocuments.Dir>, i: nat)
    requires i < |tree| && PlainName(tree[i].name)
    ensures tree[i].name in BuildClassifier.DocTypeLabels(TopLevel(UploadDocuments.Uploads(tree)))
  {
    var manifest := UploadDocuments.ManifestBlob(tree[i]);
    UploadDocuments.ManifestIsUploaded(tree, i);
    ManifestBecomesDocType(tree[i]);
    var blobs := TopLevel(UploadDocuments.Uploads(tree));
    var k :| 0 <= k < |blobs| && blobs[k] == manifest;
    assert BuildClassifier.Yields(blobs[k], tree[i].name);
    BuildClassifier.DocTypeLabelsMember(blobs, tree[i].name);
  }

  /**
   An OCR output `<file>.ocr.json` left in a training directory is uploaded like any other
   entry, but its blob name does not end in `.jsonl`, so it never becomes a document type.
   */
  lemma OcrOutputIsNoManifest(d: UploadDocuments.Dir, file: string)
    ensures !BuildClassifier.IsManifest(UploadDocuments.BlobName(d, file + ".ocr.json"))
  {
    var entry := file + ".ocr.json";
    var rel := UploadDocuments.LocalRelPath(d, entry);
    var blob := UploadDocuments.BlobName(d, entry);
    var n := |rel|;
    JoinEnds(Join(d.parent, d.name), entry);
    assert rel[n - 1] == entry[|entry| - 1] == 'n';
    assert rel[n - 6] == entry[|entry| - 6] == 'r';
    assert blob == ReplaceBackslash(rel);
    assert blob[n - 6] == 'r';
    assert ".jsonl"[0] == '.';
  }
}
