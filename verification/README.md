# CAD-GPT core, modelled in Dafny

CAD-GPT turns a prompt into OpenSCAD code and shows the result. Three small
pieces of pure text processing sit in the middle of its user interface,
WebGL and network plumbing. This project models those pieces as pure Dafny
functions and proves what they promise.

- **The primitive extractor of the CAD renderer.** `parseOpenSCADToThree`
  runs three global regular-expression scans over the generated code. They
  look for `cube([w, d, h])`, `sphere(r = R)` and `cylinder(h = H, r = R)`,
  with numerals of the form `\d+\.?\d*`. Each match becomes one mesh. If
  nothing matches, the result is an orange-red placeholder box and a
  warning. The render effect then keeps the scene's lights, grid and axes
  and appends the parsed meshes. The generate button is disabled while
  loading or while the prompt is blank.
- **The back end's clean-up of the model's reply.** Markdown blocks fenced
  with three backticks, either tagged `openscad` or untagged, are replaced
  by their bodies. The whole text is then stripped of white space at both
  ends.
- **The links built from the code in `App.jsx`.** The viewer address is a
  fixed page plus `#script=` plus `encodeURIComponent(code)`. The download
  link is a `data:` URL of type `text/plain;charset=utf-8`. The module also
  models the page's state handlers: the blank-prompt and empty-code guards,
  the success and error replies, and the render.

## Modules

| file | module | contents |
|---|---|---|
| wrappers.dfy | `Wrappers` | `Option` and `Result` |
| text.dfy | `Text` | ECMAScript and Python white space, `trim()` / `strip()`, substring search, split and join |
| openscad.dfy | `OpenScad` | numerals, the token patterns of the three regular expressions, the anchored matcher and its completeness, the left-to-right global scan |
| shapes.dfy | `Shapes` | the surface syntax each pattern accepts (`CubeCall`, `SphereCall`, `CylinderCall`) and the match-iff-written lemmas |
| scene.dfy | `Scene` | geometries, materials and meshes; `parseOpenSCADToThree`; the scene refresh; the generate-button guard |
| recognition.dfy | `Recognition` | the end-to-end parse of one cube, sphere or cylinder call, and of a sphere given by its diameter |
| fence.dfy | `Fence` | the fence expression, `re.sub` as a leftmost non-overlapping rewrite, and `strip()` |
| utf.dfy | `Utf` | UTF-8 (RFC 3629) and UTF-16 encodings, strict UTF-8 decoding, ECMA-262 CodePointAt |
| uri.dfy | `Uri` | ECMA-262 `Encode` (section 19.2.6.5) as used by `encodeURIComponent`, and percent-decoding |
| links.dfy | `Links` | the viewer address with its fragment reading, and the RFC 2397 `data:` URL with its parser |
| app.dfy | `App` | the page's state, its handlers and the "frame never shows stale code" invariant |

Numerals are kept as digit strings together with their exact rational
value. Three.js objects are values: a geometry with its constructor
arguments, and a material with its colour, metalness and roughness.

## Model

| member | source | states |
|---|---|---|
| Text.Trim | cad-llm-backend/engine.py:55 | The result is the middle of the input. Only white space lies before and after it, and it begins and ends with a non-space character. |
| Text.TrimUnique | cad-llm-backend/engine.py:55 | Any text wrapped in white space that itself begins and ends with a non-space character is exactly what trimming returns. |
| Text.TrimIdempotent | cad-llm-backend/engine.py:55 | Stripping a stripped text changes nothing. |
| Text.TrimEmptyIffBlank | cad-llm-frontend/cad-gpt/src/App.jsx:15 | A prompt trims to nothing exactly when every character of it is white space. |
| OpenScad.NumeralAt | cad-llm-frontend/cad-gpt/src/components/CADRenderer.jsx:155 | A numeral `\d+\.?\d*` matches at a position exactly when a digit stands there. The match is the longest one: it is followed by neither a digit nor a second point. |
| OpenScad.NumeralAtGreedy | cad-llm-frontend/cad-gpt/src/components/CADRenderer.jsx:155 | Any valid numeral written at a position and not followed by a digit or a point is the one the matcher takes. |
| OpenScad.MatchTokensComplete | cad-llm-frontend/cad-gpt/src/components/CADRenderer.jsx:155 | Every spelling of a well-formed token pattern written at a position is found by the greedy token matcher, with exactly those lexemes. No backtracking is ever needed. |
| OpenScad.MatchAt | cad-llm-frontend/cad-gpt/src/components/CADRenderer.jsx:158 | An anchored match starts where it was asked for and is never empty. This is what lets the `exec` loop advance. |
| OpenScad.MatchAtSound | cad-llm-frontend/cad-gpt/src/components/CADRenderer.jsx:155 | An anchored match spells the pattern, starts with the call's keyword, and its descriptor is built from its capture groups. |
| OpenScad.MatchAtComplete | cad-llm-frontend/cad-gpt/src/components/CADRenderer.jsx:155 | Every spelling of the pattern written at a position is matched there, with the numerals it spells. |
| OpenScad.ScanSound | cad-llm-frontend/cad-gpt/src/components/CADRenderer.jsx:158 | The global scan reports leftmost matches, and each search resumes where the last match ended. |
| OpenScad.ScanUnique | cad-llm-frontend/cad-gpt/src/components/CADRenderer.jsx:158 | There is only one such scan of a text: anything that scans it equals the modelled loop's output. |
| OpenScad.ScanOrdered | cad-llm-frontend/cad-gpt/src/components/CADRenderer.jsx:158 | Scan results are in text order and never overlap. |
| OpenScad.ScanMatches | cad-llm-frontend/cad-gpt/src/components/CADRenderer.jsx:158-161 | Each reported match is an anchored match of its kind in the code. Its descriptor is well formed and of that kind. |
| Shapes.CubeMatchIff | cad-llm-frontend/cad-gpt/src/components/CADRenderer.jsx:155 | The cube expression matches at a position exactly when `cube(` `[` three unsigned numerals `]` `)` is written there, with any white space between the tokens. |
| Shapes.SphereMatchIff | cad-llm-frontend/cad-gpt/src/components/CADRenderer.jsx:175 | The sphere expression matches exactly when `sphere(r=` one unsigned numeral `)` is written there. Other argument forms such as `d=` do not match. |
| Shapes.CylinderMatchIff | cad-llm-frontend/cad-gpt/src/components/CADRenderer.jsx:193 | The cylinder expression matches exactly when `cylinder(h=` a numeral `, r=` a numeral `)` is written there, with `h` first and nothing after `r`. |
| Scene.MeshOf | cad-llm-frontend/cad-gpt/src/components/CADRenderer.jsx:159-207 | A parsed mesh has colour 0x1e90ff, metalness 0.1 and roughness 0.5. No size argument is negative. `cube([w, d, h])` becomes a box of width w, height h and depth d. `sphere(r = R)` becomes a sphere of radius R. `cylinder(h = H, r = R)` becomes a cylinder of height H whose top and bottom radius are both R. |
| Scene.Extract | cad-llm-frontend/cad-gpt/src/components/CADRenderer.jsx:155-209 | The extracted list has one descriptor per match of the three scans. Every descriptor is well formed. All cubes come before all spheres, and all spheres before all cylinders. |
| Scene.ExtractOfKind | cad-llm-frontend/cad-gpt/src/components/CADRenderer.jsx:155-209 | The descriptors of any one kind in the output are exactly that kind's matches, in text order. |
| Scene.ParseOpenScad | cad-llm-frontend/cad-gpt/src/components/CADRenderer.jsx:148-227 | The result is never empty. The warning is set exactly when no scan matched, and then the result is the single placeholder box. Otherwise the result is the mesh of each extracted descriptor, in the extractor's order (cubes, then spheres, then cylinders, each in text order): one mesh per match, each in the part material with non-negative sizes. |
| Scene.KeepHelpers | cad-llm-frontend/cad-gpt/src/components/CADRenderer.jsx:129-131 | The filter keeps only lights, grids and axes, and it keeps every one of them. Everything it returns was among the children. |
| Scene.KeepHelpersOne | cad-llm-frontend/cad-gpt/src/components/CADRenderer.jsx:129-131 | A single child is kept exactly when it is a light, a grid or axes. |
| Scene.KeepHelpersAppend | cad-llm-frontend/cad-gpt/src/components/CADRenderer.jsx:129-131 | Filtering a concatenation filters each part and keeps the parts in order. With `KeepHelpersOne` this fixes the result: the children with the non-helpers removed, in their original order. |
| Scene.KeepHelpersCounts | cad-llm-frontend/cad-gpt/src/components/CADRenderer.jsx:129-131 | Each light, grid or axes survives as many times as it occurs. No other child survives. |
| Scene.RefreshContents | cad-llm-frontend/cad-gpt/src/components/CADRenderer.jsx:129-137 | After a refresh, the helpers are the old helpers in their old order. The meshes are exactly the new objects in parser order, so no earlier mesh survives. |
| Scene.RefreshIdempotent | cad-llm-frontend/cad-gpt/src/components/CADRenderer.jsx:129-137 | Refreshing twice with the same objects gives the same scene as refreshing once. |
| Scene.RenderEffect | cad-llm-frontend/cad-gpt/src/components/CADRenderer.jsx:126-137 | Without code, or before the viewer and scene exist, nothing changes. Otherwise the scene's meshes become exactly the parsed objects, its lights, grid and axes are kept in order, and the error becomes the parse warning when there is one. |
| Scene.GenerateDisabled | cad-llm-frontend/cad-gpt/src/components/CADRenderer.jsx:284 | The button is disabled exactly when a request is loading or the prompt is all white space. |
| Recognition.ParseOne | cad-llm-frontend/cad-gpt/src/components/CADRenderer.jsx:155-226 | Code in which the scans find one call of some kind and nothing else parses to that call's mesh, with no warning. |
| Recognition.SingleCube | cad-llm-frontend/cad-gpt/src/components/CADRenderer.jsx:155-163 | Any one cube call `cube([w, d, h])` with any white space parses to exactly one box of width w, height h and depth d, in the part material, with no warning. |
| Recognition.SingleSphere | cad-llm-frontend/cad-gpt/src/components/CADRenderer.jsx:175-189 | Any one sphere call `sphere(r = R)` with any white space parses to exactly one sphere of radius R with 32 by 16 segments, in the part material, with no warning. |
| Recognition.SingleCylinder | cad-llm-frontend/cad-gpt/src/components/CADRenderer.jsx:193-208 | Any one cylinder call `cylinder(h = H, r = R)` parses to exactly one cylinder with top and bottom radius R, height H and 32 radial segments, in the part material, with no warning. |
| Recognition.SphereMatchShape | cad-llm-frontend/cad-gpt/src/components/CADRenderer.jsx:175 | A sphere match starts with `sphere(`, and the next character is the `r` of the argument or white space. |
| Recognition.DiameterSphereSkipped | cad-llm-frontend/cad-gpt/src/components/CADRenderer.jsx:175-224 | A program that is one `sphere(d=n)` call matches none of the three expressions. It parses to the placeholder box alone, with the warning. |
| Fence.FenceAt | cad-llm-backend/engine.py:53 | A match at the head of a text is an opening fence tagged `openscad` or untagged, a body with no closing fence in it, and a closing fence. |
| Fence.FenceAtComplete | cad-llm-backend/engine.py:53 | Every text that starts with such a block is matched with exactly that tag and body. The lazy body stops at the first closing fence. |
| Fence.SubstituteBlock | cad-llm-backend/engine.py:53 | A block at the head of a text is replaced by its body, and the rest of the text is rewritten on its own. |
| Fence.SubstitutePlain | cad-llm-backend/engine.py:53 | Text at none of whose positions a block starts is copied through unchanged. |
| Fence.SubstituteSegments | cad-llm-backend/engine.py:53 | Take a reply made of plain text without backticks and accepted blocks. Every block, however many there are, is replaced by its body, and the plain text is kept verbatim. |
| Fence.Clean | cad-llm-backend/engine.py:55 | The cleaned code neither starts nor ends with Python white space. |
| Fence.UnwrapTagged | cad-llm-backend/engine.py:53-55 | A reply that is one `openscad` block comes back as its body, stripped. |
| Fence.UnwrapBare | cad-llm-backend/engine.py:53-55 | A reply that is one untagged block comes back as its body, stripped. An empty body gives the empty text. |
| Fence.NoFenceStripped | cad-llm-backend/engine.py:53-55 | A reply in which no block starts anywhere is only stripped. |
| Fence.NoTicksStripped | cad-llm-backend/engine.py:53-55 | A reply without three backticks in a row is only stripped. |
| Fence.OtherTagKept | cad-llm-backend/engine.py:53-55 | A block tagged with any other language (no line break or backtick in the tag) keeps its fences; the reply is only stripped. The body may hold single or double backticks, but no three in a row. |
| Fence.CapitalisedTagKept | cad-llm-backend/engine.py:53 | A block tagged `OpenSCAD` in other letter case is not unwrapped when its body holds no three backticks in a row. |
| Fence.TwoBlocks | cad-llm-backend/engine.py:53-55 | Two accepted blocks separated by plain text are both unwrapped. Each body ends at its own closing fence. |
| Utf.Utf8 | cad-llm-frontend/cad-gpt/src/App.jsx:48 | A code point is encoded in one to four bytes. It takes one byte exactly when it is ASCII, and every byte after the first is a continuation byte. |
| Utf.DecodeUtf8Of | cad-llm-frontend/cad-gpt/src/App.jsx:48 | Strict UTF-8 decoding gives back every string from its UTF-8 bytes. |
| Utf.CodePointAtUtf16 | cad-llm-frontend/cad-gpt/src/App.jsx:48 | CodePointAt reads back each code point, whole, from its own UTF-16 encoding. |
| Utf.UnitsPaired | cad-llm-frontend/cad-gpt/src/App.jsx:48 | The UTF-16 code units of any string of characters have no unpaired surrogate. |
| Uri.Encode | cad-llm-frontend/cad-gpt/src/App.jsx:48 | On success, the encoding holds only unreserved characters and `%` escapes of two upper-case hexadecimal digits. |
| Uri.EncodeSucceedsIffPaired | cad-llm-frontend/cad-gpt/src/App.jsx:48 | The encoder throws URIError exactly when the code units hold an unpaired surrogate. |
| Uri.EncodeUnits | cad-llm-frontend/cad-gpt/src/App.jsx:48 | On any string of characters the encoder succeeds. It agrees with the character-by-character reading: unreserved characters are kept, and every other character becomes its UTF-8 bytes as escapes. |
| Uri.SafeExcludes | cad-llm-frontend/cad-gpt/src/App.jsx:48-49 | No `#`, `&`, `,`, `;`, `=`, `/`, `?`, space or line break survives the encoding. |
| Uri.DecodeEscapeText | cad-llm-frontend/cad-gpt/src/App.jsx:48 | Percent-decoding and then UTF-8 decoding undoes the encoding of every string. |
| Uri.LoneSurrogateThrows | cad-llm-frontend/cad-gpt/src/App.jsx:48 | A lone leading surrogate, alone or before a letter, makes the encoder throw. |
| Links.EncodeComponent | cad-llm-frontend/cad-gpt/src/App.jsx:48 | The component encoding of the code never throws, and its result is safe text. |
| Links.ViewerFragment | cad-llm-frontend/cad-gpt/src/App.jsx:49 | The fragment of the viewer address is `script=` followed by the encoded code. |
| Links.ViewerUrlCarriesCode | cad-llm-frontend/cad-gpt/src/App.jsx:48-51 | The decoded `script` parameter of the viewer address's fragment is exactly the code. |
| Links.DownloadHrefParses | cad-llm-frontend/cad-gpt/src/App.jsx:98 | The download link is a well-formed RFC 2397 URL. Its media type is `text/plain` with the one parameter `charset=utf-8`, it is not base64, and its data is the encoded code. |
| Links.DownloadHrefCarriesCode | cad-llm-frontend/cad-gpt/src/App.jsx:98 | Opening the downloaded document gives back exactly the code. |
| App.StartGenerate | cad-llm-frontend/cad-gpt/src/App.jsx:15-21 | A request goes out exactly when the trimmed prompt is non-empty. A blank prompt only sets 'Please enter a prompt' and does not set loading. Otherwise loading starts and the error is cleared. |
| App.Reason | cad-llm-frontend/cad-gpt/src/App.jsx:34 | The server's detail is reported when it is present and non-empty; otherwise the error's message is. |
| App.Finish | cad-llm-frontend/cad-gpt/src/App.jsx:28-36 | Loading always ends. A reply sets the code and clears the viewer address. A failure keeps both, and sets the error to the fixed prefix followed by the reason. |
| App.Render | cad-llm-frontend/cad-gpt/src/App.jsx:42-51 | Without code, only the error 'No OpenSCAD code to render' is set and the address is kept. With code, the address becomes the viewer address, and its `script` parameter decodes to the code. |
| App.Download | cad-llm-frontend/cad-gpt/src/App.jsx:98 | The download link's document is the code on the page. |
| App.RunKeepsFresh | cad-llm-frontend/cad-gpt/src/App.jsx:28-51 | From the initial state, after any sequence of typing, generate clicks, replies and render clicks, the frame is empty or shows the code on the page. |

## Left out

- Fence.OtherTagKept / Fence.CapitalisedTagKept: a body holding three backticks in a row is not covered, because such a body can open or close a block of its own and the outcome then depends on where it does.
- `centerCameraOnObjects` (CADRenderer.jsx:230-261): it depends on Three.js bounding boxes and floating-point trigonometry. The render effect's call to it is not modelled.
- Three.js and WebGL setup, the animation loop, OrbitControls and the resize handler (CADRenderer.jsx:23-103): these are rendering and event plumbing.
- The render effect's `catch` (CADRenderer.jsx:141-142): nothing in the modelled parse throws.
- The HTTP requests in both generate handlers (App.jsx:23-26, CADRenderer.jsx:106-122): the request's outcome is a parameter, the `Reply` given to `App.Finish`. The renderer component's own `generateCAD` is not modelled beyond its button guard.
- The clipboard write, the iframe and the `console.error` call: browser I/O.
- cad-llm-backend/main.py, and the Gemini client and prompt text in engine.py (lines 7-50): routing, logging and a foreign API.
- The static markup components (Header, Footer, Hero, Logo, ContentSection, FooterColumn, HomePage, Icon): they hold no logic beyond a scroll flag.
- Scene.MeshOf: `parseFloat` rounds to the nearest binary64 value; the model keeps each numeral's exact decimal value.
- Mesh identity: Three.js meshes are objects, and the model compares them by value.
- App.Render / App.Download: in JavaScript `cadCode` is UTF-16 text, and `encodeURIComponent` (App.jsx:48 and :98) throws URIError on a lone surrogate. The model's code is a string of Unicode scalar values, so these two never reach that throw. The code only comes from the back end's JSON reply (main.py), which is UTF-8 and cannot carry a lone surrogate. The throw itself is modelled on code units by `Uri.Encode` and `Uri.EncodeSucceedsIffPaired`.
- Uri.DecodeEscapeText: `decodeURIComponent` is modelled only on ASCII input, which is all the encoder produces. On text with non-ASCII characters the model refuses, where the JavaScript function would copy such characters through.
- What the online viewer does with the `script` parameter is outside the repository; the model stops at the decoded parameter value.
- The two buttons' `disabled` attributes in App.jsx (lines 73 and 80) are not modelled as separate functions. The generate button there is disabled only while loading, and the blank prompt is caught inside the handler, as `App.StartGenerate` models. An empty `cadCode` is caught by `App.Render`'s own branch.
