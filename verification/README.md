# Image upload plugin for the Zine blog engine, modelled in Dafny

The plugin `img_upload` adds three things to a Zine blog's admin panel:

- an upload service point, `upload_image`. It accepts a file whose declared
  content type contains `image` and saves it in the configured images
  directory. If the name is already taken there, it puts random ASCII letters
  in front of the last dotted segment until the name is free. It answers with
  an escaped `<img>` fragment that points at `base_url/name`.
- a settings page, `show_image_manager_options`. It writes the images
  directory and the base URL to the blog's configuration when the request
  gives them. A write the host refuses becomes an error flash, and the page is
  still rendered.
- a navigation hook, `add_image_manager_link`. It inserts a link to that page
  among the children of the `options` entry of the admin navigation bar.

The model has these modules:

- `PyText` (`pytext.dfy`): the Python behaviour the handlers rely on.
  `str.split` and `str.join` on one character, the substring test
  `sub in s`, `list.insert` with Python's index clamping, and
  `posixpath.join`. It also holds `RFind`, the last occurrence of a
  character, as a reference definition: `Naming.Segments` uses it to say
  what the split-and-join expressions of the rename compute.
- `Naming` (`naming.dfy`): one rename step, renames chained over a sequence
  of letters, and the rename loop as the method `ResolveName`. The letter is
  drawn nondeterministically from the 52 ASCII letters; a ghost out-parameter
  records the letters drawn. Termination holds for every sequence of draws.
  The loop keeps a ghost set of rejected names, all of which are in the
  listing and all shorter than the current name. That set grows inside the
  finite listing, so the loop stops.
  A name without '.' becomes `letter + "." + name` on its first rename: the
  old name becomes the last segment (`Naming.RenameWithoutDot`). The loop
  has no cap on its number of turns; `Naming.ResolveName` proves that it
  runs at most `|listing|` times.
- `Blog` (`blog.dfy`): the host state the plugin touches. Class `Site` holds
  the configuration map `cfg` and the flash queue `flashes`.
- `Options` (`options.dfy`): the settings page, as a method that updates a
  `Site`.
- `Navigation` (`navigation.dfy`): the navigation hook. A `NavigationBar`
  object holds its entries, and the method updates the entries in place.
- `Upload` (`upload.dfy`): the upload handler and the fragment it returns.

Host services are parameters of the model. `isAdmin` is the outcome of the
`BLOG_ADMIN` privilege check. `fs` maps each directory path of the file
system to the names it holds: `os.listdir` of the images directory succeeds
when that path is in `fs` and is not empty, and raises OSError otherwise.
`saveFails` says whether `image.save` raises IOError. `rejected` holds the configuration keys whose transaction
the host fails to commit. `configUrl` and `title` are the results of
`url_for` and `_()`. The saved file is described by the `Saved` result: the
final name, the path and the bytes.

## Model

| member | source | states |
|---|---|---|
| `PyText.Split` | __init__.py:87 | `name.split('.')` has at least one part, and no part contains the separator |
| `PyText.Join` | __init__.py:87 | `'.'.join(parts)` is empty for no parts and is the only part for one part |
| `PyText.JoinSplit` | __init__.py:87 | joining the parts of a split gives back the original string |
| `PyText.SplitJoin` | __init__.py:87 | splitting a join of separator-free parts gives back the parts |
| `PyText.SplitNoSep` | __init__.py:87 | a string without the separator splits into itself alone |
| `PyText.SplitLastSep` | __init__.py:87 | a separator followed by separator-free text splits off that text as the last part |
| `PyText.SplitFirstSep` | __init__.py:87 | a separator-free prefix followed by the separator splits off as the first part |
| `PyText.RFind` | __init__.py:87 | the last '.' in the name: -1 exactly when there is none, otherwise an index holding '.' with no '.' after it |
| `PyText.HasSubstringIff` | __init__.py:84 | the test `"image" in content_type` holds exactly when "image" occurs at some index of the content type |
| `PyText.PyInsert` | __init__.py:55 | `list.insert(i, x)`: one item longer, `x` at the clamped index, the items before it unchanged, the items after it shifted by one |
| `PyText.InsertMinusThree` | __init__.py:55 | `insert(-3, x)` puts `x` at index max(0, n-3), and removing it gives back the old list in order |
| `PyText.PathJoin` | __init__.py:89 | `os.path.join(dir, name)` is `name` when `name` is absolute; otherwise it is `dir`, then one '/' exactly when `dir` is non-empty and does not end in '/', then `name` |
| `PyText.PathJoinInDirectory` | __init__.py:89 | a name without '/' joined to a non-empty directory lies directly in it: the last '/' of the path is just before the name, and the text up to it is the directory with one trailing '/' |
| `PyText.LastBeforeTail` | __init__.py:89 | in `head + tail`, where `head` ends with `c` and `tail` holds no `c`, the last `c` is the end of `head` |
| `Naming.Segments` | __init__.py:87 | the stem `'.'.join(name.split('.')[:-1])` and the last segment `name.split('.')[-1]` are the text before and after the last '.'; with no '.' they are "" and the whole name; the last segment never holds '.' |
| `Naming.Rename` | __init__.py:87 | one rename makes the name strictly longer, whatever the letter |
| `Naming.RenameKeepsSegments` | __init__.py:87 | for a letter other than '.', a rename appends the letter to the stem and keeps the last segment (the extension) |
| `Naming.RenameWithDot` | __init__.py:87 | for a name with '.', the rename inserts the letter just before the last '.' and the length grows by exactly 1 |
| `Naming.RenameWithoutDot` | __init__.py:87 | for a name without '.', the rename gives `letter + "." + name` and the length grows by exactly 2 |
| `Naming.RenameChain` | __init__.py:86-87 | after renaming once per letter, the name is at least as many characters longer as there were letters |
| `Naming.ChainShape` | __init__.py:86-87 | after one or more renames the name is the original stem, the letters in the order drawn, '.', and the original last segment; the extension is kept |
| `Naming.ChainLength` | __init__.py:86-87 | after n > 0 renames the name is exactly n longer if it held a '.', and n+1 longer if not |
| `Naming.TakenStep` | __init__.py:86 | one more turn of the loop keeps "every rejected candidate was in the listing" and "every drawn character is a letter" |
| `Naming.LoopStep` | __init__.py:86-87 | a turn of the loop on a taken name keeps the loop state: the rejected name was not rejected before, the rejected names stay inside the listing and shorter than the new candidate, and the candidate is the chained rename of the letters drawn |
| `Naming.ResolveName` | __init__.py:85-87 | the loop ends for any letters drawn, after at most as many turns as the listing has entries; the final name is not in the listing; every rejected candidate was in the listing; a name that is free is kept with zero turns |
| `Upload.ImageFragment` | __init__.py:91 | the answer is the escaped tag, and reading its source back gives `base_url + '/' + name` |
| `Upload.FragmentSrc` | __init__.py:91 | the text between the fixed opening and closing of the tag is the URL |
| `Upload.UploadImage` | __init__.py:79-91 | refused without the privilege; nothing saved and `None` when the content type lacks "image"; otherwise the request fails with nothing saved exactly when the images directory cannot be listed (always so for the default empty directory) or the write fails; else the uploaded bytes are saved at `join(images_directory, name)` and the answer uses the same `name`, which is free in the listing and is the upload name when that was free |
| `Blog.Site.constructor` | __init__.py:102-103 | setup registers both plugin settings with default '' |
| `Blog.Site.ChangeSingle` | __init__.py:65 | a committed write sets the key; a rejected one raises ConfigurationTransactionError and leaves the configuration as it was |
| `Blog.Site.AddFlash` | __init__.py:67 | a flash appends exactly one message |
| `Options.ShowImageManagerOptions` | __init__.py:59-77 | without the privilege nothing changes; otherwise each setting changes only when its argument is non-empty and the write commits, and then to that argument; all other keys stay as they were; each rejected write adds one error flash, directory first; the handler goes on and renders the values the configuration holds afterwards |
| `Navigation.NavigationBar.AddImageManagerLink` | __init__.py:45-56 | without the privilege the bar is unchanged; with it, each `options` entry gains exactly one `('img_upload', url, title)` child at index max(0, n-3), its old children keep their order around it, and every other entry and field is unchanged |

## Left out

- `inject_image_form` (__init__.py:28-42): it only adds a script and an HTML/JavaScript snippet to the admin header.
- `setup` (__init__.py:94-113): event wiring, URL rules, template paths and shared exports belong to the host. Only the two configuration defaults are modelled, in `Blog.Site.constructor`.
- File I/O: the file system `fs` is a snapshot taken once, and paths are the strings as written: relative paths, `..` and links are not resolved. `image.save` is the `Saved` result; its failure is the parameter `saveFails`. The program lists the directory again on every turn of the loop. If the directory changes during the request, the snapshot does not capture it; that race is concurrency.
- Randomness: the letter is a nondeterministic choice among the 52 ASCII letters (`string.letters` in the C locale). Other locales are not modelled.
- Host calls `require_privilege`, `render_admin_response`, `flash` and `url_for` are abstract outcomes: a boolean, a `Page` value, a queued `Flash`, and a string parameter. The translation `_()` is a parameter for the navigation link's title; for the two flash messages it is the identity, so they are the English texts.
- `Navigation.NavigationBar.AddImageManagerLink`: entries are values in a sequence, so two entries that share one children list in Python are not modelled as shared.
- `Upload.UploadImage`: a content type or file name of `None` is not modelled. Both are strings here. In Python the content-type test on `None` raises TypeError, and joining a `None` file name raises AttributeError.
- `Blog.Site.ChangeSingle`: the model assumes that a rejected transaction leaves the stored value unchanged. The host's transaction code is not part of this model.
