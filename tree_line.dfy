/**
 * One line of the flattened tree (src/flat_tree.rs, `LineType` and
 * `TreeLine`). The file-system calls of `TreeLine::create` are inputs here:
 * `fileName` is the path's final component, if it has one, and `metadata`
 * is the outcome of reading its metadata (None when that fails, otherwise
 * whether the path is a directory).
 */
module TreeLines {
  import opened Wrappers
  import KeyCodec

  type Path = string

  /** What a line shows: a file, a directory (with the number of its
      entries not listed), or a placeholder for pruned entries. */
  datatype LineType =
    | File(name: string)
    | Dir(name: string, unlisted: nat)
    | Pruning(unlisted: nat)

  /** The name `create` gives a line: the final path component, or "???". */
  function LineName(fileName: Option<string>): (name: string)
    ensures fileName.Some? ==> name == fileName.value
    ensures fileName.None? ==> name == "???"
  {
    match fileName
    case Some(s) => s
    case None => "???"
  }

  /** The content and error flag `create` derives from the metadata lookup. */
  function ContentOf(name: string, metadata: Option<bool>): (r: (LineType, bool))
    ensures r.1 <==> metadata.None?
    ensures r.1 ==> r.0 == File(name)
    ensures r.0.Dir? <==> metadata == Some(true)
    ensures r.0.Dir? ==> r.0 == Dir(name, 0)
    ensures !r.0.Pruning? && r.0.name == name
  {
    match metadata
    case Some(isDir) => (if isDir then Dir(name, 0) else File(name), false)
    case None => (File(name), true)
  }

  class TreeLine {
    /** One flag per ancestor level: draw a vertical connector there. */
    var leftBranchs: seq<bool>
    var depth: nat
    var key: string
    var path: Path
    var content: LineType
    var hasError: bool

    constructor Create(path: Path, depth: nat, fileName: Option<string>, metadata: Option<bool>)
      ensures |leftBranchs| == depth && forall d :: 0 <= d < depth ==> !leftBranchs[d]
      ensures key == "" && this.path == path && this.depth == depth
      ensures hasError <==> metadata.None?
      ensures hasError ==> content.File?
      ensures content.Dir? <==> metadata == Some(true)
      ensures content.Dir? ==> content.unlisted == 0
      ensures Name() == Some(LineName(fileName))
      ensures fileName.None? ==> Name() == Some("???")
    {
      var name := LineName(fileName);
      var (c, err) := ContentOf(name, metadata);
      leftBranchs := seq(depth, _ => false);
      this.depth := depth;
      key := "";
      this.path := path;
      content := c;
      hasError := err;
    }

    function IsDir(): (b: bool)
      reads this
      ensures b <==> content.Dir?
      ensures b ==> Name().Some?
    {
      match content
      case Dir(_, _) => true
      case _ => false
    }

    /** The displayed name; a Pruning line has none. */
    function Name(): (r: Option<string>)
      reads this
      ensures r.None? <==> content.Pruning?
      ensures r.Some? ==> r.value == content.name
    {
      match content
      case Dir(name, _) => Some(name)
      case File(name) => Some(name)
      case Pruning(_) => None
    }

    /** Appends the key characters of the ancestor ranks, one per level.
        `ranks[level + 1]` is read for every level below `depth`. */
    method FillKey(ranks: seq<nat>, depth: nat)
      requires depth == 0 || depth < |ranks|
      modifies this`key
      ensures key == old(key) + KeyCodec.KeyCode(ranks, depth)
    {
      for i := 0 to depth
        invariant key == old(key) + KeyCodec.KeyCode(ranks, i)
      {
        key := key + [KeyCodec.IndexToChar(ranks[i + 1])];
      }
    }
  }
}
