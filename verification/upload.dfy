/** upload_image: the service point that stores an uploaded image in the
    configured directory under a name not yet taken there, and answers with
    an escaped `<img>` fragment pointing at it under the configured base URL. */
module Upload {
  import opened PyText
  import opened Naming
  import opened Blog

  /** The multipart form field the upload widget posts. */
  const UserFileField: string := "userfile"

  /** `'&lt;img src="'` and `'"&gt;&lt;/img&gt;<br />'`: the text around the
      image URL in the answer. */
  const ImgOpen: string := "&lt;img src=\""
  const ImgClose: string := "\"&gt;&lt;/img&gt;<br />"

  /** An uploaded file as the request carries it. */
  datatype UploadedFile = UploadedFile(filename: string, contentType: string, data: seq<bv8>)

  /** What the handler does: refused by the privilege decorator, the form
      field is missing (the host answers 400), not an image (the handler
      returns None and stores nothing), `os.listdir` or `image.save` raised
      (the request fails and nothing is stored), or the bytes saved at `path`
      under the final `name`, with `html` returned. */
  datatype UploadResult =
    | Forbidden
    | MissingFile
    | NotAnImage
    | IOFailure
    | Saved(name: string, path: string, data: seq<bv8>, html: string)

  /** `os.listdir(dir)` succeeds: `dir` names a directory of the file system
      `fs` (directory path to the names it holds). The empty path names no
      directory, so listing it raises OSError. */
  predicate Listable(fs: map<string, set<string>>, dir: string)
  {
    dir != "" && dir in fs
  }

  /** The URL inside a fragment of the handler's shape, if `html` has it. */
  function SrcOf(html: string): Option<string>
  {
    if |ImgOpen| + |ImgClose| <= |html| && html[..|ImgOpen|] == ImgOpen && html[|html| - |ImgClose|..] == ImgClose
    then Some(html[|ImgOpen|..|html| - |ImgClose|])
    else None
  }

  /** The answer of upload_image: the escaped tag whose source is
      `base_url + '/' + name`; reading the source back gives that URL. */
  function ImageFragment(baseUrl: string, name: string): (html: string)
    ensures SrcOf(html) == Some(baseUrl + "/" + name)
  {
    var url := baseUrl + "/" + name;
    FragmentSrc(url);
    ImgOpen + url + ImgClose
  }

  lemma FragmentSrc(url: string)
    ensures SrcOf(ImgOpen + url + ImgClose) == Some(url)
  {
  }

  /** upload_image. `isAdmin` is the outcome of the BLOG_ADMIN check,
      `files` the request's uploaded files, `cfg` the configuration, `fs` the
      directories of the file system with the names each holds (unchanged
      while the handler runs), and `saveFails` whether writing the file
      raises IOError. For a content type containing "image", the request
      fails when the images directory cannot be listed (the default empty
      directory among them) or the write fails. Otherwise the bytes are
      saved under the uploaded name when it is free and otherwise under the
      result of the rename loop; that name is not in the listing, and the
      same name is used for the saved path and in the answer. `chosen`
      records the letters the loop drew. */
  method UploadImage(isAdmin: bool, files: map<string, UploadedFile>, cfg: map<string, string>,
                     fs: map<string, set<string>>, saveFails: bool)
    returns (result: UploadResult, ghost chosen: string)
    requires ImagesDirectoryKey in cfg && BaseUrlKey in cfg
    ensures !isAdmin ==> result == Forbidden
    ensures isAdmin && UserFileField !in files ==> result == MissingFile
    ensures isAdmin && UserFileField in files ==>
              (result == NotAnImage <==> !HasSubstring(files[UserFileField].contentType, "image"))
    ensures isAdmin && UserFileField in files && HasSubstring(files[UserFileField].contentType, "image") ==>
              && (result == IOFailure <==> !Listable(fs, cfg[ImagesDirectoryKey]) || saveFails)
              && (result.Saved? <==> Listable(fs, cfg[ImagesDirectoryKey]) && !saveFails)
    ensures isAdmin && cfg[ImagesDirectoryKey] == "" ==> !result.Saved?
    ensures result in {Forbidden, MissingFile, NotAnImage} ==> chosen == []
    ensures result.Saved? ==>
              isAdmin && UserFileField in files && !saveFails &&
              var f, dir := files[UserFileField], cfg[ImagesDirectoryKey];
              && Listable(fs, dir)
              && result.name !in fs[dir]
              && (f.filename !in fs[dir] ==> result.name == f.filename)
              && result.name == RenameChain(f.filename, chosen)
              && AllLetters(chosen)
              && AllTaken(f.filename, chosen, fs[dir])
              && result.path == PathJoin(dir, result.name)
              && result.data == f.data
              && result.html == ImageFragment(cfg[BaseUrlKey], result.name)
  {
    chosen := [];
    if !isAdmin {
      return Forbidden, chosen;
    }
    if UserFileField !in files {
      return MissingFile, chosen;
    }
    var image := files[UserFileField];
    if !HasSubstring(image.contentType, "image") {
      return NotAnImage, chosen;
    }
    var dir := cfg[ImagesDirectoryKey];
    if !Listable(fs, dir) {
      return IOFailure, chosen;
    }
    var name;
    name, chosen := ResolveName(image.filename, fs[dir]);
    var path := PathJoin(dir, name);
    if saveFails {
      return IOFailure, chosen;
    }
    result := Saved(name, path, image.data, ImageFragment(cfg[BaseUrlKey], name));
  }
}
