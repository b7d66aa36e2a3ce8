/** add_image_manager_link: when the admin navigation bar is built, a link to
    the plugin's settings page is inserted among the children of the
    'options' entry, three places from the end. */
module Navigation {
  import opened PyText

  /** A child link of a navigation entry: `(id, url, title)`. */
  datatype Child = Child(id: string, url: string, title: string)

  /** A top-level navigation entry: `(link_id, url, title, children)`. */
  datatype Entry = Entry(id: string, url: string, title: string, children: seq<Child>)

  const OptionsId: string := "options"
  const LinkId: string := "img_upload"

  /** The link the handler inserts; its URL (`url_for('img_upload/config')`)
      and its translated title come from the host. */
  function ImageLink(configUrl: string, title: string): Child
  {
    Child(LinkId, configUrl, title)
  }

  /** The navigation bar the host hands to the handler; the handler changes
      the children lists of its entries in place. */
  class NavigationBar {
    var entries: seq<Entry>

    constructor (entries: seq<Entry>)
      ensures this.entries == entries
    {
      this.entries := entries;
    }

    /** add_image_manager_link. `isAdmin` is the outcome of the BLOG_ADMIN
        check. Without it the bar is left as it was. With it, every entry
        whose id is 'options' gets the link inserted into its children as by
        `children.insert(-3, link)`, and every other entry, and every other
        part of an options entry, is left as it was. */
    method AddImageManagerLink(isAdmin: bool, configUrl: string, title: string)
      modifies this
      ensures |entries| == |old(entries)|
      ensures !isAdmin ==> entries == old(entries)
      ensures isAdmin ==> forall i :: 0 <= i < |entries| ==>
                entries[i] == if old(entries)[i].id == OptionsId
                              then old(entries)[i].(children := PyInsert(old(entries)[i].children, -3, ImageLink(configUrl, title)))
                              else old(entries)[i]
      ensures isAdmin ==> forall i :: 0 <= i < |entries| && old(entries)[i].id == OptionsId ==>
                var n := |old(entries)[i].children|;
                var k := if n >= 3 then n - 3 else 0;
                |entries[i].children| == n + 1
                && entries[i].children[k] == ImageLink(configUrl, title)
                && entries[i].children[..k] + entries[i].children[k + 1..] == old(entries)[i].children
    {
      if !isAdmin {
        return;
      }
      var link := ImageLink(configUrl, title);
      var i := 0;
      while i < |entries|
        invariant 0 <= i <= |entries| == |old(entries)|
        invariant forall k :: 0 <= k < i ==>
                    entries[k] == if old(entries)[k].id == OptionsId
                                  then old(entries)[k].(children := PyInsert(old(entries)[k].children, -3, link))
                                  else old(entries)[k]
        invariant forall k :: i <= k < |entries| ==> entries[k] == old(entries)[k]
      {
        var e := entries[i];
        if e.id == OptionsId {
          entries := entries[i := e.(children := PyInsert(e.children, -3, link))];
        }
        i := i + 1;
      }
      forall j | 0 <= j < |entries| && old(entries)[j].id == OptionsId {
        InsertMinusThree(old(entries)[j].children, link);
      }
    }
  }
}
