/**
 `upload_documents`: for every directory found under the training root, uploads each of its
 entries under its root-relative blob name, writes a JSON-lines manifest `<dir>.jsonl` at the
 root with one `{"file": <blob name>}` record per entry, and uploads that manifest.

 The directory walk is given as a list of directories in the order `os.walk` visits them.
 Uploads are recorded as the blob names in the order they are made; manifest writes as the
 root-relative path and text written.
 */
module UploadDocuments {
  import opened Wrappers
  import opened Paths

  /**
   A directory visited by the walk: `parent` is the walk root's path relative to the training
   root ("" at the top level), `name` the directory's own name and `entries` its
   `os.listdir` listing, in listing order.
   */
  datatype Dir = Dir(parent: string, name: string, entries: seq<string>)

  /** One manifest record, the dictionary `{"file": file}`. */
  datatype Record = Record(file: string)

  /** A file written to disk: its path relative to the training root and its text. */
  datatype Written = Written(path: string, text: string)

  /** `os.path.relpath(os.path.join(root, dir, file), local_directory)`. */
  function LocalRelPath(d: Dir, file: string): (r: string)
  {
    Join(Join(d.parent, d.name), file)
  }

  /** The blob name of an entry: its root-relative path with every `\` replaced by `/`. */
  function BlobName(d: Dir, file: string): (b: string)
    ensures '\\' !in b
  {
    ReplaceBackslashRemovesAll(LocalRelPath(d, file));
    ReplaceBackslash(LocalRelPath(d, file))
  }

  /** The blob name is the root-relative path, character for character, with `/` for every `\`. */
  lemma BlobNameReplaces(d: Dir, file: string)
    ensures |BlobName(d, file)| == |LocalRelPath(d, file)|
    ensures forall i :: 0 <= i < |BlobName(d, file)| ==>
              BlobName(d, file)[i] == (if LocalRelPath(d, file)[i] == '\\' then '/' else LocalRelPath(d, file)[i])
  {
  }

  /** For a top-level directory the blob name of an entry is `<dir>/<file>`. */
  lemma BlobNameTopLevel(d: Dir, file: string)
    requires d.parent == "" && d.name != []
    requires '\\' !in d.name && '/' !in d.name && '\\' !in file
    ensures BlobName(d, file) == d.name + "/" + file
  {
    assert d.name[|d.name| - 1] in d.name;
    assert Join(d.parent, d.name) == d.name;
    assert LocalRelPath(d, file) == d.name + [Sep] + file;
    ReplaceBackslashConcat(d.name + [Sep], file);
    ReplaceBackslashConcat(d.name, [Sep]);
    ReplaceBackslashIdentity(d.name);
    ReplaceBackslashIdentity(file);
    assert ReplaceBackslash([Sep]) == "/";
  }

  /** The blob names of the given entries of `d`, in order. */
  function BlobNames(d: Dir, files: seq<string>): (bs: seq<string>)
    ensures |bs| == |files|
  {
    if files == [] then [] else BlobNames(d, files[..|files| - 1]) + [BlobName(d, files[|files| - 1])]
  }

  lemma {:induction false} BlobNamesAt(d: Dir, files: seq<string>, i: nat)
    requires i < |files|
    ensures BlobNames(d, files)[i] == BlobName(d, files[i])
  {
    var n := |files| - 1;
    if i < n {
      BlobNamesAt(d, files[..n], i);
      assert files[..n][i] == files[i];
    }
  }

  /** The blob names of a directory's entries, in listing order. */
  function FileBlobs(d: Dir): (r: seq<string>)
  {
    BlobNames(d, d.entries)
  }

  /** The records `{"file": b}` for the blob names `bs`, in order. */
  function Records(bs: seq<string>): (rs: seq<Record>)
    ensures |rs| == |bs|
  {
    if bs == [] then [] else Records(bs[..|bs| - 1]) + [Record(bs[|bs| - 1])]
  }

  lemma {:induction false} RecordsAt(bs: seq<string>, i: nat)
    requires i < |bs|
    ensures Records(bs)[i] == Record(bs[i])
  {
    var n := |bs| - 1;
    if i < n {
      RecordsAt(bs[..n], i);
      assert bs[..n][i] == bs[i];
    }
  }

  /** The records of a directory's manifest. */
  function DirRecords(d: Dir): (r: seq<Record>)
  {
    Records(FileBlobs(d))
  }

  /** A directory has one record per listing entry, in listing order, naming that entry's blob. */
  lemma DirRecordsAt(d: Dir, i: nat)
    requires i < |d.entries|
    ensures |DirRecords(d)| == |d.entries|
    ensures DirRecords(d)[i] == Record(BlobName(d, d.entries[i]))
  {
    RecordsAt(FileBlobs(d), i);
    BlobNamesAt(d, d.entries, i);
  }

  /** The manifest's path relative to the training root: `os.path.join(local_directory, dir + ".jsonl")`. */
  function ManifestPath(d: Dir): (r: string)
  {
    d.name + ".jsonl"
  }

  /** The blob name the manifest is uploaded under. */
  function ManifestBlob(d: Dir): (r: string)
  {
    ReplaceBackslash(ManifestPath(d))
  }

  /** The manifest of `d` is `<dir>.jsonl` at the root and is uploaded as `<dir>.jsonl`. */
  lemma ManifestNames(d: Dir)
    requires '\\' !in d.name
    ensures ManifestPath(d) == d.name + ".jsonl"
    ensures ManifestBlob(d) == d.name + ".jsonl"
  {
    ReplaceBackslashIdentity(d.name + ".jsonl");
  }

  // ---------------------------------------------------------------------------------------
  // The manifest format
  // ---------------------------------------------------------------------------------------

  const RecordPrefix: string := "{\"file\": \""
  const RecordSuffix: string := "\"}"

  /**
   The file name needs no escaping by `json.dumps`: printable ASCII other than `"` and `\`.
   */
  predicate JsonSafe(s: string)
  {
    forall i :: 0 <= i < |s| ==> ' ' <= s[i] <= '~' && s[i] != '"' && s[i] != '\\'
  }

  /** `json.dumps(record)` for a file name that needs no escaping. */
  function Dumps(r: Record): (text: string)
  {
    RecordPrefix + r.file + RecordSuffix
  }

  /** The manifest text: each record's JSON followed by a newline, in order. */
  function ManifestText(rs: seq<Record>): (r: string)
  {
    if rs == [] then "" else Dumps(rs[0]) + "\n" + ManifestText(rs[1..])
  }

  lemma {:induction false} ManifestTextSnoc(rs: seq<Record>, r: Record)
    ensures ManifestText(rs + [r]) == ManifestText(rs) + Dumps(r) + "\n"
  {
    if rs == [] {
      assert rs + [r] == [r];
      assert [r][1..] == [];
    } else {
      assert (rs + [r])[0] == rs[0];
      assert (rs + [r])[1..] == rs[1..] + [r];
      ManifestTextSnoc(rs[1..], r);
    }
  }

  /** Reads back one manifest line: the file name between the record's fixed prefix and suffix. */
  function ParseRecord(line: string): (r: Option<Record>)
  {
    if |RecordPrefix| + |RecordSuffix| <= |line| && StartsWith(line, RecordPrefix) && EndsWith(line, RecordSuffix)
    then Some(Record(line[|RecordPrefix|..|line| - |RecordSuffix|]))
    else None
  }

  /** Reads back a manifest: newline-terminated lines, each a record. */
  function ParseManifest(text: string): (r: Option<seq<Record>>)
    decreases |text|
  {
    if text == [] then Some([])
    else
      var i := IndexOf(text, '\n');
      if i == |text| then None
      else match (ParseRecord(text[..i]), ParseManifest(text[i + 1..]))
        case (Some(r), Some(rs)) => Some([r] + rs)
        case _ => None
  }

  lemma DumpsParses(r: Record)
    requires JsonSafe(r.file)
    ensures ParseRecord(Dumps(r)) == Some(r)
    ensures '\n' !in Dumps(r)
  {
    var line := Dumps(r);
    assert line == RecordPrefix + (r.file + RecordSuffix);
    assert line[..|RecordPrefix|] == RecordPrefix;
    assert line == (RecordPrefix + r.file) + RecordSuffix;
    assert line[|line| - |RecordSuffix|..] == RecordSuffix;
    assert line[|RecordPrefix|..|line| - |RecordSuffix|] == r.file;
    forall i | 0 <= i < |line| ensures line[i] != '\n' {
      if i < |RecordPrefix| {
        assert line[i] == RecordPrefix[i];
      } else if i < |RecordPrefix| + |r.file| {
        assert line[i] == r.file[i - |RecordPrefix|];
      } else {
        assert line[i] == RecordSuffix[i - |RecordPrefix| - |r.file|];
      }
    }
  }

  /** Round trip: reading a manifest back gives exactly its records, in order. */
  lemma {:induction false} ManifestRoundTrip(rs: seq<Record>)
    requires forall i :: 0 <= i < |rs| ==> JsonSafe(rs[i].file)
    ensures ParseManifest(ManifestText(rs)) == Some(rs)
  {
    if rs != [] {
      var line := Dumps(rs[0]);
      var rest := ManifestText(rs[1..]);
      var text := ManifestText(rs);
      DumpsParses(rs[0]);
      assert text == line + ("\n" + rest);
      assert text[|line|] == '\n';
      forall j | 0 <= j < |line| ensures text[j] != '\n' {
        assert text[j] == line[j];
      }
      assert IndexOf(text, '\n') == |line|;
      assert text[..|line|] == line;
      assert text[|line| + 1..] == rest;
      ManifestRoundTrip(rs[1..]);
      assert [rs[0]] + rs[1..] == rs;
    }
  }

  // ---------------------------------------------------------------------------------------
  // The upload run
  // ---------------------------------------------------------------------------------------

  /** The uploads made for one directory: its entries in listing order, then its manifest. */
  function DirUploads(d: Dir): (r: seq<string>)
  {
    FileBlobs(d) + [ManifestBlob(d)]
  }

  /** All uploads of a run, directory by directory. */
  function Uploads(tree: seq<Dir>): (r: seq<string>)
  {
    if tree == [] then [] else Uploads(tree[..|tree| - 1]) + DirUploads(tree[|tree| - 1])
  }

  /** The manifest written for one directory: `<dir>.jsonl` holding its records. */
  function DirManifest(d: Dir): (r: Written)
  {
    Written(ManifestPath(d), ManifestText(DirRecords(d)))
  }

  /** All manifests written in a run, one per directory, in walk order. */
  function Manifests(tree: seq<Dir>): (r: seq<Written>)
  {
    if tree == [] then [] else Manifests(tree[..|tree| - 1]) + [DirManifest(tree[|tree| - 1])]
  }

  /** There is one manifest per directory, and the i-th is that of the i-th directory. */
  lemma {:induction false} ManifestAt(tree: seq<Dir>, i: nat)
    requires i < |tree|
    ensures |Manifests(tree)| == |tree|
    ensures Manifests(tree)[i] == DirManifest(tree[i])
  {
    var n := |tree| - 1;
    var pre := tree[..n];
    ManifestCount(tree);
    ManifestCount(pre);
    assert Manifests(tree) == Manifests(pre) + [DirManifest(tree[n])];
    if i < n {
      ManifestAt(pre, i);
      assert pre[i] == tree[i];
    }
  }

  lemma {:induction false} ManifestCount(tree: seq<Dir>)
    ensures |Manifests(tree)| == |tree|
  {
    if tree != [] {
      ManifestCount(tree[..|tree| - 1]);
    }
  }

  /** The text written to a manifest file: `f.write(json.dumps(item) + "\n")` for each record in turn. */
  method WriteManifest(jsonlData: seq<Record>) returns (text: string)
    ensures text == ManifestText(jsonlData)
  {
    text := "";
    for k := 0 to |jsonlData|
      invariant text == ManifestText(jsonlData[..k])
    {
      ManifestTextSnoc(jsonlData[..k], jsonlData[k]);
      assert jsonlData[..k + 1] == jsonlData[..k] + [jsonlData[k]];
      text := text + Dumps(jsonlData[k]) + "\n";
    }
    assert jsonlData[..|jsonlData|] == jsonlData;
  }

  lemma DirPrefixStep(d: Dir, j: nat)
    requires j < |d.entries|
    ensures BlobNames(d, d.entries[..j + 1]) == BlobNames(d, d.entries[..j]) + [BlobName(d, d.entries[j])]
    ensures Records(BlobNames(d, d.entries[..j + 1])) == Records(BlobNames(d, d.entries[..j])) + [Record(BlobName(d, d.entries[j]))]
  {
    assert d.entries[..j + 1][..j] == d.entries[..j];
    var bs := BlobNames(d, d.entries[..j + 1]);
    assert bs[..j] == BlobNames(d, d.entries[..j]);
  }

  lemma UploadsStep(tree: seq<Dir>, i: nat)
    requires i < |tree|
    ensures Uploads(tree[..i + 1]) == Uploads(tree[..i]) + FileBlobs(tree[i]) + [ManifestBlob(tree[i])]
  {
    assert tree[..i + 1][..i] == tree[..i];
  }

  lemma ManifestsStep(tree: seq<Dir>, i: nat)
    requires i < |tree|
    ensures Manifests(tree[..i + 1]) == Manifests(tree[..i]) + [DirManifest(tree[i])]
  {
    assert tree[..i + 1][..i] == tree[..i];
  }

  /**
   The inner loop of `upload_documents` for one directory: uploads each entry under its blob
   name and collects the manifest record naming it.
   */
  method UploadEntries(d: Dir) returns (jsonlData: seq<Record>, blobs: seq<string>)
    ensures jsonlData == DirRecords(d)
    ensures blobs == FileBlobs(d)
  {
    jsonlData := [];
    blobs := [];
    for j := 0 to |d.entries|
      invariant jsonlData == Records(BlobNames(d, d.entries[..j]))
      invariant blobs == BlobNames(d, d.entries[..j])
    {
      var blobName := BlobName(d, d.entries[j]);
      jsonlData := jsonlData + [Record(blobName)];
      blobs := blobs + [blobName];
      DirPrefixStep(d, j);
    }
    assert d.entries[..|d.entries|] == d.entries;
  }

  /**
   `upload_documents`: uploads every entry of every directory and then that directory's
   manifest, and writes each manifest to disk.
   */
  method Upload(tree: seq<Dir>) returns (uploaded: seq<string>, written: seq<Written>)
    ensures uploaded == Uploads(tree)
    ensures written == Manifests(tree)
  {
    uploaded := [];
    written := [];
    for i := 0 to |tree|
      invariant uploaded == Uploads(tree[..i])
      invariant written == Manifests(tree[..i])
    {
      var d := tree[i];
      var jsonlData, blobs := UploadEntries(d);
      uploaded := uploaded + blobs;
      var text := WriteManifest(jsonlData);
      written := written + [Written(ManifestPath(d), text)];
      // the manifest is uploaded under its own blob name
      uploaded := uploaded + [ManifestBlob(d)];
      UploadsStep(tree, i);
      ManifestsStep(tree, i);
    }
    assert tree[..|tree|] == tree;
  }

  // ---------------------------------------------------------------------------------------
  // Properties of a run
  // ---------------------------------------------------------------------------------------

  /** Every entry name and directory path is one `json.dumps` writes without escaping. */
  predicate SafeNames(d: Dir)
  {
    forall i :: 0 <= i < |d.entries| ==> JsonSafe(BlobName(d, d.entries[i]))
  }

  /**
   The manifest written for directory `i` reads back as one record per entry of that
   directory, in listing order, naming the entry's blob; nothing from another directory.
   */
  lemma ManifestListsDirectory(tree: seq<Dir>, i: nat)
    requires i < |tree| && SafeNames(tree[i])
    ensures |Manifests(tree)| == |tree|
    ensures Manifests(tree)[i].path == tree[i].name + ".jsonl"
    ensures ParseManifest(Manifests(tree)[i].text) == Some(DirRecords(tree[i]))
  {
    ManifestAt(tree, i);
    var rs := DirRecords(tree[i]);
    forall k | 0 <= k < |rs| ensures JsonSafe(rs[k].file) {
      DirRecordsAt(tree[i], k);
    }
    ManifestRoundTrip(rs);
  }

  lemma {:induction false} UploadsPrefix(tree: seq<Dir>, i: nat)
    requires i <= |tree|
    ensures |Uploads(tree[..i])| <= |Uploads(tree)|
    ensures Uploads(tree)[..|Uploads(tree[..i])|] == Uploads(tree[..i])
    decreases |tree| - i
  {
    if i < |tree| {
      UploadsPrefix(tree[..|tree| - 1], if i <= |tree| - 1 then i else 0);
      assert tree[..|tree| - 1][..i] == tree[..i];
    } else {
      assert tree[..i] == tree;
    }
  }

  /** A directory's manifest records name its entries' blobs one for one. */
  lemma RecordsMatchBlobs(d: Dir)
    ensures |DirRecords(d)| == |FileBlobs(d)| == |d.entries|
    ensures forall k :: 0 <= k < |d.entries| ==> DirRecords(d)[k].file == FileBlobs(d)[k]
  {
    forall k | 0 <= k < |d.entries| ensures DirRecords(d)[k].file == FileBlobs(d)[k] {
      RecordsAt(FileBlobs(d), k);
    }
  }

  /**
   Within the uploads of a run, directory `i`'s entries are uploaded as one contiguous block,
   right after the uploads of the directories before it, with their blob names in listing order.
   */
  lemma DirectoryUploadBlock(tree: seq<Dir>, i: nat)
    requires i < |tree|
    ensures var off := |Uploads(tree[..i])|;
            var n := |tree[i].entries|;
            off + n < |Uploads(tree)|
            && Uploads(tree)[off..off + n] == FileBlobs(tree[i])
  {
    UploadsPrefix(tree, i + 1);
    UploadsStep(tree, i);
    var files := FileBlobs(tree[i]);
    assert |files| == |tree[i].entries|;
    BlockOf(Uploads(tree), Uploads(tree[..i]), files, ManifestBlob(tree[i]));
  }

  /** Directory `i`'s manifest is uploaded right after the last of that directory's entries. */
  lemma ManifestAfterFiles(tree: seq<Dir>, i: nat)
    requires i < |tree|
    ensures var off := |Uploads(tree[..i])|;
            var n := |tree[i].entries|;
            off + n < |Uploads(tree)|
            && Uploads(tree)[off + n] == ManifestBlob(tree[i])
  {
    UploadsPrefix(tree, i + 1);
    UploadsStep(tree, i);
    var before := Uploads(tree[..i]) + FileBlobs(tree[i]);
    assert |before| == |Uploads(tree[..i])| + |tree[i].entries|;
    LastOf(Uploads(tree), before, ManifestBlob(tree[i]));
  }

  /** If `all` starts with `before + [last]`, then `last` sits right after `before`. */
  lemma LastOf(all: seq<string>, before: seq<string>, last: string)
    requires |before + [last]| <= |all| && all[..|before + [last]|] == before + [last]
    ensures |before| < |all| && all[|before|] == last
  {
    assert all[|before|] == all[..|before + [last]|][|before|];
  }

  /** If `all` starts with `before + block + [last]`, then `block` sits right after `before`. */
  lemma BlockOf(all: seq<string>, before: seq<string>, block: seq<string>, last: string)
    requires |before + block + [last]| <= |all| && all[..|before + block + [last]|] == before + block + [last]
    ensures |before| + |block| < |all|
    ensures all[|before|..|before| + |block|] == block
  {
    var pre := before + block + [last];
    assert all[|before|..|before| + |block|] == pre[|before|..|before| + |block|];
  }

  /** Every directory's manifest is among the blobs a run uploads. */
  lemma ManifestIsUploaded(tree: seq<Dir>, i: nat)
    requires i < |tree|
    ensures ManifestBlob(tree[i]) in Uploads(tree)
  {
    ManifestAfterFiles(tree, i);
  }
}
