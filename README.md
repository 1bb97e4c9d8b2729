# Photoshop bridge backend: a Dafny model

The bridge connects a ComfyUI server to a Photoshop plugin. Its Python backend serves
files and delivers renders. This project models the parts of that backend that decide
what happens to a request:

- **Batch delivery.** `handle_render_batch` (`GET /ps/renderbatch`) and
  `send_images_to_photoshop` read each named render from the temp directory. They skip
  files that are missing or fail to decode. Every other file becomes one batch item:
  the original bytes, the image size, and the bounding box of the alpha channel. When
  the batch is non-empty and at least one Photoshop client is connected, the batch goes
  out as one `render_batch` message (modules `Batch`, `Pixels`, `Text`).
- **Folder guards.** The file routes (`/ps/workflows/{name}`, `/ps/inputs/{filename}`,
  `/ps/error.png`, `/ps/icons/{filename}.svg`) resolve `abspath(join(root, name))`. They
  answer 403 unless `commonpath([file, root]) == root`. Path semantics are POSIX:
  `join` restarts at an absolute part; `normpath` drops empty and "." components, lets
  ".." remove the component before it, and keeps exactly two leading slashes (module
  `Paths`).
- **Proxy checks.** `proxy_handler` refuses a client that is not on a private or
  loopback IPv4 network (`is_local_ip`) with 403. It refuses a `url` header whose host
  does not match an allowed Google pattern (`is_allowed_domain`) with 403. It refuses a
  `method` header outside GET, POST, PUT, DELETE and PATCH with 400; the header
  defaults to GET and is upper-cased (module `Proxy`).
- **Mask reconstruction.** `process_and_save_mask` turns the "nomask" sentinel into a
  white (255) canvas of the target size. Otherwise it pastes the decoded crop at
  `(left, top)` onto a black (0) canvas, and saves the result under the file name as a
  PNG. The PNG save refuses a canvas with no pixels (module `Mask`).
- **Dimensions.** `calculate_dimensions` splits `total_pixels // 3` into the most
  square width and height (module `Dimensions`).

Design choices:

- Images are one channel, row-major: `px[y][x]`.
- The paste canvas is an `array2` indexed `[y, x]`. It is created already filled with
  its colour, and the crop is pasted onto it in place by nested loops.
- The temp directory is a map from file name to bytes.
- Image decoding is a function parameter that may fail.
- The WebSocket manager is a class whose `send_message` appends to a log of sent
  messages.
- The image input folder is a class holding a map from file name to image.

## Model

| member | source | states |
|---|---|---|
| `Text.Split` | py/backend/BProute.py:51 | `str.split(",")` never returns an empty list, no part contains the separator, and joining the parts with the separator gives the input back |
| `Text.SplitJoin` | py/backend/BProute.py:51 | splitting a comma-joined list of comma-free names returns exactly those names |
| `Pixels.RowSpan` | py/backend/BProute.py:77 | for one row of the alpha channel: None iff every value is 0; otherwise the first and last non-zero columns, with every non-zero column between them |
| `Pixels.BBox` | py/backend/BProute.py:77 | `getbbox()`: None iff every pixel is 0; otherwise a box (exclusive right and bottom) that contains every non-zero pixel and whose four edges each pass through a non-zero pixel |
| `Pixels.SourceBounds` | py/backend/BProute.py:77-82 | the bounds sent with an image lie within `(0, 0, width, height)`; they are exactly that when every alpha value is 0, and otherwise they are the tight box around the non-zero alpha |
| `Pixels.BoundsMinimal` | py/backend/BPutils.py:101-105 | any box containing every non-transparent pixel contains the source bounds, so the bounds are the smallest such box |
| `Pixels.OpaqueBoundsFull` | py/backend/BPutils.py:101-105 | a non-empty image with no transparent pixel has the whole canvas as its bounds |
| `Pixels.SinglePixelBounds` | py/backend/BPutils.py:101-105 | an image with one non-transparent pixel at (x, y) has bounds `(x, y, x+1, y+1)` |
| `Dimensions.ISqrt` | py/backend/BPutils.py:15 | the integer square root r of n satisfies r² ≤ n < (r+1)², the value `int(math.sqrt(n))` stands for |
| `Dimensions.ISqrtIsLargest` | py/backend/BPutils.py:15 | every a with a² ≤ n is at most the integer square root, so the search starts at the largest candidate width |
| `Dimensions.CalculateDimensions` | py/backend/BPutils.py:14-19 | with q = total // 3: a negative q raises (math domain error); q = 0 gives `(None, None)`; otherwise the result is (w, q / w), where w is the largest divisor of q not above √q |
| `Dimensions.WidthAtMostHeight` | py/backend/BPutils.py:14-19 | the width found is never larger than the height |
| `Dimensions.MostSquare` | py/backend/BPutils.py:14-19 | no factorisation a·b = q with a ≤ b has a larger a than the width found |
| `Mask.Composite` | py/backend/BPutils.py:49-62 | a written image has exactly the target size, and that size is at least 1 by 1; the call fails iff a size is zero or negative, or, outside "nomask" mode, the mask does not decode or the bounds are missing; the error reported is the first the source meets: a failed decode, then missing bounds, then a negative size (`Image.new`), then an empty canvas (the PNG save) |
| `Mask.NoMaskIsAllSelected` | py/backend/BPutils.py:50-54 | the "nomask" sentinel with a non-negative size succeeds iff the size has pixels, and then yields a canvas of exactly the target size with every pixel 255, whatever the bounds say |
| `Mask.MaskModePixels` | py/backend/BPutils.py:55-62 | in mask mode each pixel of the target-size canvas holds the crop's value where the crop was pasted at (left, top), and 0 everywhere else |
| `Mask.PlacementIgnoresRightBottom` | py/backend/BPutils.py:58-61 | `right` and `bottom` of the source bounds never affect the result; only `left` and `top` place the crop |
| `Mask.CropRegionRestored` | py/backend/BPutils.py:55-62 | a crop that matches its bounds and fits the canvas is saved iff the canvas has pixels; it then reappears exactly in `[left, right) × [top, bottom)`, and every other pixel is 0 |
| `Mask.NewCanvas` | py/backend/BPutils.py:52 | `Image.new("L", (w, h), color)` gives a fresh h-by-w canvas with every pixel equal to the colour |
| `Mask.Paste` | py/backend/BPutils.py:61 | `canvas.paste(crop, (left, top))` overwrites exactly the canvas pixels under the crop, clipped to the canvas, and leaves every other pixel unchanged |
| `Mask.MaskStore.ProcessAndSaveMask` | py/backend/BPutils.py:49-62 | on success exactly the given file is written, holding the composite image, and all other files stay the same; on a decode failure, missing bounds or a negative size nothing is written and that error is reported; an empty canvas fails inside the save, after the file was opened, so no image is left under that name and no other file changes |
| `Batch.ProcessFile` | py/backend/BProute.py:63-84 | a file yields an item iff it exists and decodes, and that item carries the requested name and describes the file faithfully |
| `Batch.Survivors` | py/backend/BProute.py:62-87 | the names that survive the loop are readable names taken from the request, never more than were given, and each readable name survives exactly as many times as it was requested |
| `Batch.Assemble` | py/backend/BProute.py:62-87 | every item in the batch describes a requested file faithfully: the unchanged bytes, which decode, and the size and source bounds of the decoded image |
| `Batch.AssembleMatchesSurvivors` | py/backend/BPutils.py:89-110 | the batch holds one item per readable name, in request order, and items plus skipped names equal the names requested |
| `Batch.AssembleAppend` | py/backend/BPutils.py:89-110 | files are processed independently: the batch for a list of names is the batch for its first part followed by that for the rest |
| `Batch.AssembleSingle` | py/backend/BProute.py:62-87 | a single readable name gives exactly its item; a missing or undecodable name gives nothing |
| `Batch.Broadcast` | py/backend/BProute.py:93-99 | at most one message is sent, exactly when the batch and the set of connected Photoshop clients are both non-empty, and it is a `render_batch` message to all those clients carrying the whole batch |
| `Batch.WsManager.SendMessage` | py/backend/BProute.py:96 | a send records exactly one message: these recipients, this kind, this payload |
| `Batch.CollectBatch` | py/backend/BProute.py:62-87 | the loop that skips missing or undecodable files builds exactly the specified batch |
| `Batch.SendImagesToPhotoshop` | py/backend/BPutils.py:85-118 | the message log grows by exactly the broadcast of the batch built from the names, which is nothing unless both batch and clients are non-empty |
| `Batch.RequestedNames` | py/backend/BProute.py:49-51 | the names the route works on form a non-empty list |
| `Batch.HandleRenderBatch` | py/backend/BProute.py:46-108 | an empty first name gives the 400 reply before any file is read, and nothing is sent; otherwise the reply counts every requested name, missing ones included, and echoes `cmUID`, and the log grows by the broadcast of the batch |
| `Batch.EmptyParameterRefused` | py/backend/BProute.py:49-57 | a missing or empty `filenames` parameter splits to `[""]` and is refused |
| `Batch.LeadingCommaRefused` | py/backend/BProute.py:51-57 | a parameter starting with a comma has an empty first name and is refused, though later names are non-empty |
| `Batch.ScenarioNames` | py/backend/BProute.py:51 | `"a.png,missing.png,b.png"` names three files |
| `Batch.ScenarioBatch` | py/backend/BProute.py:62-87 | of those three names, only the two present files become items, in order |
| `Batch.MissingFileScenario` | py/backend/BProute.py:46-108 | with two clients connected, the route sends one message holding the two readable files in order, and the reply reports three names |
| `Paths.Join2` | py/backend/BProute.py:22 | `os.path.join` onto an absolute folder gives an absolute path |
| `Paths.JoinAll` | py/backend/BProute.py:113 | joining several parts onto an absolute folder gives an absolute path |
| `Paths.Components` | py/backend/BProute.py:23 | the components `commonpath` compares are non-empty, not ".", and contain no separator |
| `Paths.Resolve` | py/backend/BProute.py:22 | resolving ".." leaves only clean components: no "", "." or ".." |
| `Paths.NormPath` | py/backend/BProute.py:22 | `abspath` of an absolute path is absolute |
| `Paths.CommonPath` | py/backend/BProute.py:23 | `commonpath` of two absolute paths is absolute and in normal form, and its components are exactly the longest common prefix of their component lists |
| `Paths.CommonPrefix` | py/backend/BProute.py:23 | the common prefix is a prefix of both component lists, and it is the longest one |
| `Paths.ComponentsOfWritten` | py/backend/BProute.py:22-23 | a path written as "/" or "//" followed by clean components has exactly those components |
| `Paths.ResolveClean` | py/backend/BProute.py:22 | components without "..", "." or "" resolve to themselves |
| `Paths.NormPathComponents` | py/backend/BProute.py:22 | a normalised path has exactly the resolved components of its input, all of them clean |
| `Paths.GuardSound` | py/backend/BProute.py:23 | when `commonpath([file, root]) == root` passes, root's components are a prefix of file's |
| `Paths.GuardComplete` | py/backend/BProute.py:23 | for a root written in normal form, every file whose components extend root's passes the guard |
| `Paths.Guarded` | py/backend/BProute.py:22-25 | the file served is exactly the normalised request `abspath(joined)`; a served file is normalised and lies component-wise under the root; for a root in normal form the route serves iff the resolved request extends the root, and a root in any other form refuses every request |
| `Paths.RoutesConfined` | py/backend/BProute.py:20-116 | the workflow, input, error-image and icon routes each serve the normalised form of the file they were asked for, and only when it lies component-wise under the folder each one checks against |
| `Paths.RefusedOutside` | py/backend/BProute.py:23-24 | for a root in normal form, a request whose resolved components do not extend root's gets 403 |
| `Paths.SiblingRefused` | py/backend/BProute.py:23-24 | a sibling folder whose name extends root's last component (`/a/bc` next to `/a/b`) passes a string-prefix test but is refused |
| `Paths.DotDotRefused` | py/backend/BProute.py:29-32 | a name such as `../x` that climbs out of the folder to a sibling is refused |
| `Proxy.LocalIpRanges` | py/backend/BProute.py:168-179 | an IPv4 address is local iff it lies in 10.0.0.0–10.255.255.255, 172.16.0.0–172.31.255.255, 192.168.0.0–192.168.255.255 or 127.0.0.0–127.255.255.255 |
| `Proxy.InNetwork` | py/backend/BProute.py:171-177 | membership in an aligned network (`ip in ip_network(...)`) is a contiguous address range |
| `Proxy.IsLocalIp` | py/backend/BProute.py:168-179 | only an IPv4 address can be local: IPv6 addresses and unparseable client addresses (the `ValueError` path) are never local |
| `Proxy.MatchAnyThen` | py/backend/BProute.py:185 | a match needs a host at least as long as the literal, and the literal occurs in the host |
| `Proxy.MatchAnyThenSpec` | py/backend/BProute.py:185 | `re.match(".*" + literal, host)` succeeds iff the literal starts at some position with no newline before it |
| `Proxy.MatchIsContains` | py/backend/BProute.py:185 | for a host without newlines, the match is plain substring containment |
| `Proxy.IsAllowedDomain` | py/backend/BProute.py:182-187 | a host that `urlparse` fails on is refused, and an allowed host contains one of the four suffixes, whatever characters it holds |
| `Proxy.AllowedDomainIsContains` | py/backend/BProute.py:182-187 | a newline-free host is allowed iff it contains one of ".googleapis.com", ".firebaseio.com", ".cloudfunctions.net", ".google-analytics.com" anywhere |
| `Proxy.BareDomainRefused` | py/backend/BProute.py:138 | the bare host "googleapis.com" is refused, since every pattern requires a dot before the domain |
| `Proxy.UnanchoredEndAllowed` | py/backend/BProute.py:138 | the patterns are not anchored at the end, so a host such as "a.googleapis.com.example.net" is allowed |
| `Proxy.UpperAscii` | py/backend/BProute.py:152 | upper-casing keeps the length and maps exactly the letters a–z to A–Z |
| `Proxy.ValidateProxyRequest` | py/backend/BProute.py:141-154 | the three checks in order: a non-local client gets 403 "Access denied"; a local client with a missing, empty or disallowed url gets 403 "Invalid or forbidden URL"; a local client with an allowed url and an upper-cased method (default GET) outside the five gets 400; otherwise the request is forwarded with that method and the url unchanged |
| `Proxy.MethodDefaultsAndCase` | py/backend/BProute.py:151-154 | with no method header the request is forwarded as GET, and "post" is forwarded as POST |

## Left out

- The ComfyUI node, plugin installation, `force_pull`, `install_plugin`, `LatestVer`,
  `save_file` and `get_css` are not part of this model.
- The bodies of the forwarded proxy request are not modelled. This covers the
  `ClientSession` call, the JSON replies and the 500 reply on a forwarding error; the
  model stops at the decision to forward.
- `urlparse(url).netloc` and `ipaddress.ip_address` are inputs: the caller passes the
  parsed host (None when parsing raises) and the parsed client address. Their own
  parsing rules are not modelled.
- Image decoding and PNG encoding are not modelled. Decoding is a parameter that may
  fail. A saved PNG is represented by the image it encodes.
- Files are read through a map keyed by the name given in the request. The model does
  not capture these differences from the real file system:
  - `os.path.join(temp_dir, filename)` with an absolute or ".." name;
  - a file that exists but cannot be read, which is skipped like a missing one;
  - the asynchronous file API.
- The WebSocket manager (`ws_manager`) is not part of this model. Its `send_message` is
  recorded as one log entry and cannot fail. So the 500 reply of `handle_render_batch`
  on a critical error is not modelled, nor is per-client delivery.
- Console output and the exact text of the HTTP replies are not modelled; replies are
  represented by their status and the values they report.
- Batch items carry the alpha channel's size. The source reports the size of the RGBA
  image, which is the same size.
- Requests are treated one at a time. Concurrency between asynchronous handlers is not
  modelled.
- `Dimensions.CalculateDimensions`: uses the exact integer square root for
  `int(math.sqrt(q))`. The floating-point square root agrees with it while q is below
  2^52; it is not modelled above that.
- `Proxy.UpperAscii`: upper-cases ASCII letters only. Python's `str.upper` also maps
  some non-ASCII letters onto ASCII ones: 'ſ' becomes 'S', so the source forwards a
  method "poſt" as POST. The model leaves such characters unchanged and refuses that
  method with 400.
- `Paths.GetWorkflow`, `Paths.GetInput`, `Paths.GetErrorImage`, `Paths.GetLogo`:
  specified through `Paths.RoutesConfined`, not by contracts of their own.
- `Mask.MaskStore.ProcessAndSaveMask`: the folder is a map keyed by the file name as
  given, so `os.path.join(dirs.psimg, filename)` (BPutils.py:53 and :62) is not
  modelled. Two names for one file, such as `x.png` and `./x.png`, are two keys in the
  model. An absolute name or one with `..` writes outside the folder in the source;
  the model stores it under that name in the folder. After an empty-canvas error the
  model holds no image under the name. The source leaves a truncated, empty file there
  if one existed before; the model does not tell that file apart from an absent one.
- Windows path semantics (`ntpath`) are not modelled: backslash separators, drive
  letters and the case-insensitive comparison of `commonpath`. The `Paths` module is
  POSIX only.
- `Paths.Dirs.Valid`: the configured folders are taken to be absolute, as ComfyUI's
  `folder_paths` makes them; the source never checks this. With a relative folder
  `commonpath` raises "Can't mix absolute and relative paths" and the route answers
  500, which the model does not capture.
- Mask requests carry the width, height, left, top, right and bottom as integers. The
  source reads them with `int(...)` (BPutils.py:51, 57-58), which truncates a float
  toward zero (-0.5 becomes 0) and raises on text that is not a number. A missing key
  in `mask_data[1]` or `mask_data[2]` raises `KeyError`. None of these errors is
  modelled, nor is the truncation; `Mask.PlacementIgnoresRightBottom` is a statement
  about integer offsets.
- Symbolic links and `realpath` are not modelled; `abspath` does not resolve them.
- The `{name:.+}` route pattern and URL decoding of path parameters by aiohttp are not
  modelled; a name is any string.
