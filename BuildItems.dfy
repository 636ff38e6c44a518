/**
 * The project Build hands to MSBuild, as far as the queue shapes it: one "Compile"
 * item per queued file, with the metadata the XNA content pipeline reads.
 */
module BuildItems {
  import opened Wrappers
  import opened Paths
  import opened TypeMappings
  import opened ContentFiles
  import opened Counting

  /** A project item: its item type, its include (the source file it includes) and its metadata. */
  datatype ProjectItem = ProjectItem(itemType: string, itemInclude: string, metadata: map<string, string>)

  /**
   * The item for one queued file: Link is the file name, Name the content name, and
   * Importer and Processor the short type names when the entry has them.
   */
  function ItemOf(q: QueuedContentFile): (r: ProjectItem)
    ensures r.itemType == "Compile" && r.itemInclude == q.filename
    ensures r.metadata.Keys == {"Link", "Name"} + (if q.importerType.Some? then {"Importer"} else {})
                                                + (if q.processorType.Some? then {"Processor"} else {})
  {
    var named := map["Link" := FileName(q.filename), "Name" := q.contentName];
    var withImporter := if q.importerType.Some? then named["Importer" := q.importerType.value.name] else named;
    var withProcessor := if q.processorType.Some? then withImporter["Processor" := q.processorType.value.name] else withImporter;
    ProjectItem("Compile", q.filename, withProcessor)
  }

  /** The include of every item, in order. */
  function Includes(items: seq<ProjectItem>): (r: seq<string>)
    ensures |r| == |items| && forall i :: 0 <= i < |items| ==> r[i] == items[i].itemInclude
  {
    if items == [] then [] else Includes(items[..|items| - 1]) + [items[|items| - 1].itemInclude]
  }

  /**
   * `items` is the item list for the queue `files`: every item is the item of the
   * entry it includes, no file is included twice, and every queued file is included.
   */
  predicate ItemsFor(files: map<string, QueuedContentFile>, items: seq<ProjectItem>) {
    && (forall i :: 0 <= i < |items| ==> items[i].itemInclude in files && items[i] == ItemOf(files[items[i].itemInclude]))
    && Distinct(Includes(items))
    && (forall k :: k in files ==> k in Includes(items))
  }

  /**
   * The loop over the queue in Build: one item per queued entry, visited in the
   * dictionary's own order, which the model leaves open.
   */
  method EmitItems(files: map<string, QueuedContentFile>) returns (items: seq<ProjectItem>)
    requires forall k :: k in files ==> files[k].filename == k
    ensures ItemsFor(files, items)
  {
    items := [];
    var pending := files.Keys;
    while pending != {}
      invariant pending <= files.Keys
      invariant forall i :: 0 <= i < |items| ==>
                  items[i].itemInclude in files && items[i].itemInclude !in pending && items[i] == ItemOf(files[items[i].itemInclude])
      invariant Distinct(Includes(items))
      invariant forall k :: k in files && k !in pending ==> k in Includes(items)
      decreases pending
    {
      var k :| k in pending;
      items := items + [ItemOf(files[k])];
      pending := pending - {k};
    }
  }

  /** One project item per queued entry. */
  lemma OneItemPerEntry(files: map<string, QueuedContentFile>, items: seq<ProjectItem>)
    requires ItemsFor(files, items)
    ensures |items| == |files|
  {
    DistinctListing(Includes(items), files.Keys);
  }

  /**
   * The metadata of an entry whose file name is a full path: Link is the path's last
   * component, Name the content name, and Importer and Processor are present exactly
   * when the entry names those types.
   */
  lemma ItemMetadata(q: QueuedContentFile, full: Path)
    requires ValidPath(full) && full != [] && q.filename == Text(full)
    ensures var m := ItemOf(q).metadata;
            && m["Link"] == full[|full| - 1]
            && m["Name"] == q.contentName
            && ("Importer" in m <==> q.importerType.Some?)
            && (q.importerType.Some? ==> m["Importer"] == q.importerType.value.name)
            && ("Processor" in m <==> q.processorType.Some?)
            && (q.processorType.Some? ==> m["Processor"] == q.processorType.value.name)
  {
    FileNameOfText(full);
  }
}
