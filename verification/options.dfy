/** The plugin's admin page, show_image_manager_options: each setting given
    in the request is written to the configuration; a write the host rejects
    becomes an error flash and the page is rendered anyway, with the values
    the configuration holds afterwards. */
module Options {
  import opened Blog

  const ImagesDirectoryArg: string := "images_directory"
  const BaseUrlArg: string := "base_url"
  const ImagesDirectoryError: string := "The images directory could not be changed."
  const BaseUrlError: string := "The base url could not be changed."

  /** What the handler answers: the privilege decorator's refusal, or the
      settings page with the two values it shows. */
  datatype OptionsPage = Forbidden | Page(imagesDirectory: string, baseUrl: string)

  /** `if req.args.get(arg):` — the argument is present and not empty. */
  predicate Given(args: map<string, string>, arg: string)
  {
    arg in args && args[arg] != ""
  }

  /** The request sets `key` from `arg`: the argument is given and the
      host commits the write (keys in `rejected` fail to commit). */
  predicate Writes(args: map<string, string>, arg: string, key: string, rejected: set<string>)
  {
    Given(args, arg) && key !in rejected
  }

  /** The request tries to set `key` from `arg` and the host rejects it. */
  predicate Fails(args: map<string, string>, arg: string, key: string, rejected: set<string>)
  {
    Given(args, arg) && key in rejected
  }

  /** show_image_manager_options. `isAdmin` is the outcome of the BLOG_ADMIN
      privilege check; `rejected` names the keys whose transaction the host
      fails to commit during this request. Without the privilege nothing
      changes. Otherwise: only the two plugin keys can change, each only when
      its argument is non-empty and then to that argument; each rejected write
      adds exactly one error flash, directory first; and the page shows the
      configuration as it stands afterwards. */
  method ShowImageManagerOptions(site: Site, isAdmin: bool, args: map<string, string>, rejected: set<string>)
    returns (page: OptionsPage)
    requires site.Valid()
    modifies site
    ensures site.Valid()
    ensures !isAdmin ==> page == Forbidden && site.cfg == old(site.cfg) && site.flashes == old(site.flashes)
    ensures isAdmin ==> site.cfg.Keys == old(site.cfg).Keys
    ensures isAdmin ==> forall k :: k in old(site.cfg) && k != ImagesDirectoryKey && k != BaseUrlKey ==>
                                    site.cfg[k] == old(site.cfg)[k]
    ensures isAdmin ==> site.cfg[ImagesDirectoryKey] ==
                          if Writes(args, ImagesDirectoryArg, ImagesDirectoryKey, rejected)
                          then args[ImagesDirectoryArg] else old(site.cfg)[ImagesDirectoryKey]
    ensures isAdmin ==> site.cfg[BaseUrlKey] ==
                          if Writes(args, BaseUrlArg, BaseUrlKey, rejected)
                          then args[BaseUrlArg] else old(site.cfg)[BaseUrlKey]
    ensures isAdmin ==> site.flashes == old(site.flashes)
                          + (if Fails(args, ImagesDirectoryArg, ImagesDirectoryKey, rejected)
                             then [Flash(ImagesDirectoryError, "error")] else [])
                          + (if Fails(args, BaseUrlArg, BaseUrlKey, rejected)
                             then [Flash(BaseUrlError, "error")] else [])
    ensures isAdmin ==> page == Page(site.cfg[ImagesDirectoryKey], site.cfg[BaseUrlKey])
  {
    if !isAdmin {
      return Forbidden;
    }
    if Given(args, ImagesDirectoryArg) {
      var ok := site.ChangeSingle(ImagesDirectoryKey, args[ImagesDirectoryArg], ImagesDirectoryKey in rejected);
      if !ok {
        site.AddFlash(ImagesDirectoryError, "error");
      }
    }
    if Given(args, BaseUrlArg) {
      var ok := site.ChangeSingle(BaseUrlKey, args[BaseUrlArg], BaseUrlKey in rejected);
      if !ok {
        site.AddFlash(BaseUrlError, "error");
      }
    }
    page := Page(site.cfg[ImagesDirectoryKey], site.cfg[BaseUrlKey]);
  }
}
