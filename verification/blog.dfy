/** The part of the host blog application the plugin touches: its
    configuration store, holding the plugin's two variables, and the queue of
    flash messages shown on the next admin page. */
module Blog {

  /** The configuration keys the plugin registers at setup. */
  const ImagesDirectoryKey: string := "img_upload/images_directory"
  const BaseUrlKey: string := "img_upload/base_url"

  /** A flash message and its category (`'error'`, ...). */
  datatype Flash = Flash(message: string, category: string)

  /** The application state a request sees: `req.app.cfg` and the flash
      messages queued so far. */
  class Site {
    var cfg: map<string, string>
    var flashes: seq<Flash>

    /** Both plugin variables are registered, so reading them never fails. */
    ghost predicate Valid()
      reads this
    {
      ImagesDirectoryKey in cfg && BaseUrlKey in cfg
    }

    /** The state after setup: both variables registered with default ''. */
    constructor ()
      ensures Valid()
      ensures cfg == map[ImagesDirectoryKey := "", BaseUrlKey := ""]
      ensures flashes == []
    {
      cfg := map[ImagesDirectoryKey := "", BaseUrlKey := ""];
      flashes := [];
    }

    /** `cfg.change_single(key, value)`: a one-value configuration transaction.
        Whether the host manages to commit it is outside the plugin, so it is
        a parameter: when `commitFails`, the transaction raises
        ConfigurationTransactionError (`ok` is false) and the store keeps its
        old value. */
    method ChangeSingle(key: string, value: string, commitFails: bool) returns (ok: bool)
      requires Valid()
      modifies this`cfg
      ensures Valid()
      ensures ok == !commitFails
      ensures cfg == if ok then old(cfg)[key := value] else old(cfg)
    {
      ok := !commitFails;
      if ok {
        cfg := cfg[key := value];
      }
    }

    /** `flash(message, category)`: queue one message. */
    method AddFlash(message: string, category: string)
      modifies this`flashes
      ensures flashes == old(flashes) + [Flash(message, category)]
    {
      flashes := flashes + [Flash(message, category)];
    }
  }
}
