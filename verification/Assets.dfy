/**
  The asset upload descriptors of lib/Compiler.js, lines 68-73: each entry
  of the asset directory becomes `{name, file, imageType}` for Reddit's
  `uploadStylesheetImage`.
*/
module Assets {
  import opened Wrappers
  import opened NodePath

  datatype ImageType = Png | Jpg

  /** The argument of one `uploadStylesheetImage` call. */
  datatype AssetUpload = AssetUpload(name: string, file: string, imageType: ImageType)

  /** `path.extname(file) === "png" ? "png" : "jpg"`.  The extension is empty
      or starts with a dot, so it never equals `"png"`. */
  function ImageTypeOf(f: EntryName): (t: ImageType)
    ensures t == Jpg
  {
    if Extname(f) == "png" then Png else Jpg
  }

  /** The descriptor for one directory entry. */
  function Describe(assetDirectory: string, f: EntryName): (u: AssetUpload)
    ensures u.name + Extname(f) == f
    ensures u.file == Join(assetDirectory, f)
    ensures u.imageType == Jpg
  {
    AssetUpload(Basename(f, Extname(f)), Join(assetDirectory, f), ImageTypeOf(f))
  }

  /** `fs.readdirSync(assetDirectory).map(...)`: one descriptor per entry, in
      listing order. */
  function Descriptors(assetDirectory: string, files: seq<EntryName>): (us: seq<AssetUpload>)
    ensures |us| == |files|
    ensures forall i :: 0 <= i < |files| ==> us[i].name + Extname(files[i]) == files[i]
    ensures forall i :: 0 <= i < |files| ==> us[i].file == Join(assetDirectory, files[i])
    ensures forall i :: 0 <= i < |files| ==> us[i].imageType == Jpg
  {
    if |files| == 0 then []
    else [Describe(assetDirectory, files[0])] + Descriptors(assetDirectory, files[1..])
  }

  /** The classification the code actually performs on typical names: a
      `.png` file is uploaded as a jpg like every other. */
  lemma ClassifiesPngAsJpg()
    ensures Extname("icon.png") == ".png"
    ensures Describe("assets", "icon.png") == AssetUpload("icon", "assets/icon.png", Jpg)
    ensures Describe("assets", "icon") == AssetUpload("icon", "assets/icon", Jpg)
  {
    PngExtension();
    BareExtension();
    PngBase();
    AssetPaths();
  }

  lemma PngBase()
    ensures Basename("icon.png", ".png") == "icon"
  {
    assert "icon.png"[..4] == "icon";
  }

  lemma AssetPaths()
    ensures Join("assets", "icon.png") == "assets/icon.png"
    ensures Join("assets", "icon") == "assets/icon"
  {
  }

  lemma PngExtension()
    ensures Extname("icon.png") == ".png"
  {
    assert LastIndexOf("icon.png", '.') == Some(4) by {
      assert "icon.png"[4] == '.';
      assert '.' !in "icon.png"[5..];
    }
  }

  lemma BareExtension()
    ensures Extname("icon") == ""
  {
    assert forall k :: 0 < k < 4 ==> "icon"[k] != '.';
  }
}
