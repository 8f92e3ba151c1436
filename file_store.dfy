/**
 * The filesystem as the scripts see it: a map from path to text contents.
 * Directory creation, permissions and encodings are not modelled.
 */
module FileStore {
  import opened JsonValues

  /** `path.with_suffix(path.suffix + ".tmp")`, which always appends ".tmp" to the path. */
  function TmpSibling(path: string): (tmp: string)
    ensures tmp != path && |tmp| == |path| + 4 && tmp[..|path|] == path
  {
    path + ".tmp"
  }

  class Disk {
    var files: map<string, string>

    constructor (initial: map<string, string>)
      ensures files == initial
    {
      files := initial;
    }

    /** `path.write_text(text)`: creates or overwrites one file. */
    method WriteText(path: string, text: string)
      modifies this
      ensures files == old(files)[path := text]
    {
      files := files[path := text];
    }

    /** `os.replace(src, dst)`: `dst` takes `src`'s contents and `src` disappears. */
    method Replace(src: string, dst: string)
      requires src in files
      modifies this
      ensures files == (old(files) - {src})[dst := old(files)[src]]
    {
      var contents := files[src];
      files := (files - {src})[dst := contents];
    }

    /**
     * `write_text_atomic`: the text goes to the `.tmp` sibling first and is
     * then renamed over the target, so the target holds the text, the sibling
     * is gone and every other path is unchanged.
     */
    method WriteTextAtomic(path: string, text: string)
      modifies this
      ensures files == (old(files) - {TmpSibling(path)})[path := text]
      ensures path in files && files[path] == text
      ensures TmpSibling(path) !in files
      ensures forall q :: q != path && q != TmpSibling(path) ==>
        (q in files <==> q in old(files)) && (q in files ==> files[q] == old(files)[q])
    {
      var tmp := TmpSibling(path);
      WriteText(tmp, text);
      Replace(tmp, path);
    }

    /**
     * `write_json_atomic`: the same two steps on the serialised document;
     * `dumps` stands for `json.dumps(obj, ensure_ascii=False, indent=2)`.
     */
    method WriteJsonAtomic(path: string, obj: Json, dumps: Json -> string)
      modifies this
      ensures files == (old(files) - {TmpSibling(path)})[path := dumps(obj)]
    {
      WriteTextAtomic(path, dumps(obj));
    }
  }
}
