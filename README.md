# Vanessa Tancredi real-estate site: a verified model of its list and string rules

The site lists properties for sale and for rent around Longwy. Visitors filter the
listings by type, city and budget. A location picker lets them select cities one by
one or a whole sector at a time. An admin area edits listings and maintains the list
of cities and their sectors. Listing photos are served through an image-resizing
proxy. A browser extension scrapes a Facebook post, or any other page, for a
description and photos to import.

This Dafny project models the logic behind those features and proves what it
promises. There is one module per source file, plus shared modules:

| module | models |
|---|---|
| `Wrappers` | `Option` and `Result` |
| `Seqs` | `Array.prototype.filter`; the subsequence relation; the order-preserving "first one per key" deduplication done by `new Set(...)` and by the `seen`-set loops |
| `Strings` | `trim`, `split`/`join`, `startsWith`, number-to-text in template literals, `parseInt` without a radix, UTF-16 `.length` |
| `Sectors` | the `reduce` that groups entries by sector, with `"Autres"` as the fallback (shared by the picker and the admin page) |
| `CitySelector` | the location picker: `toggleCity`, `toggleSector`, disabled rows, labels, and the sectors to render with their in-place sort |
| `Home` | the three-criterion listing filter and the list of distinct cities |
| `PropertyForm` | the listing editor: form defaults, the features codec, `handleChange`, the submit payload, update versus insert |
| `CityManager` | the admin city page: grouping, add-form normalisation and guard, the edit flow, as a class holding the form state |
| `ImageOptimizer` | `getOptimizedImageUrl`, with `encodeURIComponent` and a reference decoder |
| `SearchContext` | the shared search state, as a class with eight fields, their setters and `resetFilters`; the `useSearch` guard |
| `ContentScript` | `getFbImageId`; the Facebook dedup loop; the generic longest-text pick and large-image dedup; the `success` flag |

The source's loops and in-place updates stay imperative in the model:

- the `reduce` accumulators are `GroupBySector` and `GroupCities`;
- the sector sort works on an `array`;
- the `forEach` loops of the scraper are methods;
- the React state of the admin city page and of the search provider are classes.

Each such method is proved against a specification function. The properties are then
proved about that function.

## Model

| member | source | states |
|---|---|---|
| Sectors.SectorLabel | src/pages/admin/CityManager.jsx:115 | A missing or empty sector is filed under "Autres"; a non-empty sector is filed under its own name. |
| Sectors.GroupBySector | src/pages/admin/CityManager.jsx:114-119 | The accumulator's keys are the sectors in first-appearance order. Each key's array holds exactly the values pushed for that sector, in input order. |
| Sectors.BucketMembers | src/components/CitySelector.jsx:76-81 | A value is in a sector's group exactly when it was given with that sector. |
| Sectors.BucketIsSubseq | src/components/CitySelector.jsx:79 | Within a group, values keep their input order. |
| Sectors.GroupSizesSum | src/pages/admin/CityManager.jsx:115-118 | Every entry lands in exactly one group: the group sizes add up to the number of entries. |
| CitySelector.ToggleCity | src/components/CitySelector.jsx:22-28 | The clicked city is in the result exactly when it was not in the selection; every other city's membership is unchanged. |
| CitySelector.ToggleCityKeepsOthers | src/components/CitySelector.jsx:22-28 | Other entries keep their multiplicity. Removing keeps the relative order; adding appends at the end. |
| CitySelector.ClickCity | src/components/CitySelector.jsx:179-184 | A click on a disabled row leaves the selection unchanged. Otherwise it flips the city's membership. |
| CitySelector.Toggleable | src/components/CitySelector.jsx:43-46 | The toggleable cities are those of the sector that are in database mode, loading, or have a positive count. In database mode they are the whole sector. |
| CitySelector.ToggleableMatchesRows | src/components/CitySelector.jsx:179 | Outside database mode, a city is toggleable exactly when its row is not disabled. |
| CitySelector.ToggleSectorEmpty | src/components/CitySelector.jsx:48 | With nothing toggleable, the selection is unchanged. |
| CitySelector.ToggleSectorDeselects | src/components/CitySelector.jsx:50-54 | If all toggleable cities are selected, exactly those are removed. Other entries keep their order and multiplicity. |
| CitySelector.ToggleSectorSelects | src/components/CitySelector.jsx:56-58 | Otherwise the result is the other entries, in order, followed by the toggleable cities. All of those end up selected, and other entries keep their multiplicity. |
| CitySelector.ToggleSectorSelectsOnce | src/components/CitySelector.jsx:56-58 | When the sector has no duplicate names, each toggleable city ends up selected exactly once. |
| CitySelector.ToggleSectorTwice | src/components/CitySelector.jsx:50-58 | From a selection holding none of the toggleable cities, toggling the sector twice restores the selection. |
| CitySelector.SelectedSectorClickDeselects | src/components/CitySelector.jsx:157-169 | Clicking a header shown as fully selected leaves none of the sector's toggleable cities selected. |
| CitySelector.UnselectedSectorClickSelects | src/components/CitySelector.jsx:157-169 | In database mode, clicking a non-empty header not shown as selected makes it show as selected. |
| CitySelector.DisplayValueShowsCount | src/components/CitySelector.jsx:62-66 | The label is "Toutes les villes" for no city and the city's name for one. For two or more it, and the footer line, starts with the count, which `parseInt` reads back. |
| CitySelector.SelectAll | src/components/CitySelector.jsx:139 | "Toutes les villes" empties the selection. The label and footer then show the whole area. |
| CitySelector.SelectAllSelectsNoSector | src/components/CitySelector.jsx:157 | After "select all", no sector header shows as fully selected. |
| CitySelector.PreferredIndex | src/components/CitySelector.jsx:97-98 | `indexOf` in the preferred list: a valid index naming the sector, or -1 exactly when the sector is not listed. |
| CitySelector.CompareSectorsIsTotalPreorder | src/components/CitySelector.jsx:96-103 | The sector comparator is total and transitive, so it is a valid sort comparator. |
| CitySelector.SortSectors | src/components/CitySelector.jsx:96-103 | The in-place sort leaves the sectors ordered by the comparator, and it is a permutation of its input. |
| CitySelector.SortBy | src/components/CitySelector.jsx:96 | `Array.prototype.sort` with a total-preorder comparator: the array ends up sorted and is a permutation of the original. |
| CitySelector.InsertLast | src/components/CitySelector.jsx:96 | One insertion step extends the sorted prefix by one element and keeps the multiset. |
| CitySelector.SortedSectorsOrder | src/components/CitySelector.jsx:99-102 | In a sorted list of distinct sectors, preferred sectors come first in their listed order, and the others follow in name order. |
| CitySelector.SectorsToRender | src/components/CitySelector.jsx:72-114 | Database rows are grouped by sector (one sector per name, holding its cities) and sorted. Plain names form one "Nos Localités" sector. An absent or empty list gives no sector. |
| CitySelector.GroupAndSort | src/components/CitySelector.jsx:76-103 | The grouped and sorted sectors match the grouped rows, and they are sorted. |
| CitySelector.GroupsMatch | src/components/CitySelector.jsx:93 | `Object.entries` of the accumulator, in key-creation order, gives one sector per distinct sector name, holding its bucket. |
| CitySelector.PermutationKeepsMatch | src/components/CitySelector.jsx:96 | Sorting (any permutation) keeps that match. |
| Home.DefaultCriteria | src/pages/Home.jsx:19-21 | The page starts with type "Tous", city "Toutes" and an empty budget. |
| Home.FilterProperties | src/pages/Home.jsx:47-54 | The result holds only listings of the input that meet all three criteria, and every listing that meets them. |
| Home.FilterKeepsOrder | src/pages/Home.jsx:48-53 | The kept listings are a subsequence of the input. |
| Home.DefaultKeepsAll | src/pages/Home.jsx:48-53 | With the default criteria the output is the input. |
| Home.TypeCriterion | src/pages/Home.jsx:49 | Type "Tous" restricts nothing; any other type keeps only that type. |
| Home.CityCriterion | src/pages/Home.jsx:50 | City "Toutes" restricts nothing; any other city keeps only that city. |
| Home.BudgetIsInclusive | src/pages/Home.jsx:51 | A budget typed as the number n keeps a listing exactly when its price, fractional part included, is at most n, boundary included. |
| Home.UnreadableBudgetKeepsNothing | src/pages/Home.jsx:51 | A budget `parseInt` cannot read (NaN) keeps no listing. |
| Home.NarrowingRemovesOnly | src/pages/Home.jsx:52 | Replacing sentinels by concrete values yields a subsequence of the looser result. |
| Home.CitiesAreDistinctAndComplete | src/pages/Home.jsx:56 | The city list holds each city of the listings exactly once, nothing else, in first-occurrence order. |
| PropertyForm.NewForm | src/pages/admin/PropertyForm.jsx:15-26 | A blank form has exactly the ten fields: type "Maison", status "Vente", and every text field empty. |
| PropertyForm.ParseFeatures | src/pages/admin/PropertyForm.jsx:92 | Every parsed feature is non-empty, trimmed and free of commas. |
| PropertyForm.EmptyParsesToNothing | src/pages/admin/PropertyForm.jsx:92 | An empty features box parses to no feature. |
| PropertyForm.ParseJoinRoundTrip | src/pages/admin/PropertyForm.jsx:92 | Parsing the `", "`-join made on load (line 40) gives back any list of well-formed features. |
| PropertyForm.ParseIsStable | src/pages/admin/PropertyForm.jsx:92 | Parse, join, parse equals parse, for every input text. |
| PropertyForm.LoadForm | src/pages/admin/PropertyForm.jsx:37-41 | Loading a record copies every field. Falsy features become "", a list is joined with ", ", and other truthy features make `join` throw. |
| PropertyForm.HandleChange | src/pages/admin/PropertyForm.jsx:117 | Only the named field changes, and it takes the typed text. |
| PropertyForm.Payload | src/pages/admin/PropertyForm.jsx:88-93 | Submit keeps every field but the features, which become the parsed list. A features field that is not text makes `split` throw. |
| PropertyForm.NewFormSavesNoFeatures | src/pages/admin/PropertyForm.jsx:88-93 | A blank form saves an empty features list. |
| PropertyForm.MissingFeaturesSaveEmpty | src/pages/admin/PropertyForm.jsx:40 | A record with absent or null features loads and saves an empty list. |
| PropertyForm.LoadThenSaveIsIdentity | src/pages/admin/PropertyForm.jsx:38-41 | Opening a record with well-formed features and saving it untouched writes back the record as it was. |
| PropertyForm.ChangeThenSave | src/pages/admin/PropertyForm.jsx:117 | Typing into the features box and saving stores the parsed text and leaves the other fields as they were. |
| PropertyForm.SaveActionFor | src/pages/admin/PropertyForm.jsx:96-107 | Submit updates the route id's record exactly in edit mode (a non-empty id), and inserts otherwise. |
| CityManager.GroupCities | src/pages/admin/CityManager.jsx:114-119 | Each city is in the group of its sector label and in no other group. Groups appear in first-appearance order, cities in input order. |
| CityManager.GroupedUnderItsSector | src/pages/admin/CityManager.jsx:115-117 | A city is in group k exactly when it is one of the cities and its label is k. |
| CityManager.GroupSizesAddUp | src/pages/admin/CityManager.jsx:115-118 | The group sizes add up to the number of cities. |
| CityManager.GroupKeepsOrder | src/pages/admin/CityManager.jsx:117 | Within a group, cities keep their fetched order. |
| CityManager.CityToInsert | src/pages/admin/CityManager.jsx:49-52 | Something is inserted exactly when the trimmed name and the chosen sector are non-empty. The name is trimmed; a custom sector is trimmed, a listed sector is kept as is. |
| CityManager.DisabledIffNothingToInsert | src/pages/admin/CityManager.jsx:173 | With a listed sector selected, the add button is disabled exactly when the handler would insert nothing. |
| CityManager.EditSectorFor | src/pages/admin/CityManager.jsx:90 | An edit starts from the city's sector, or from the first option when the sector is missing or empty. |
| CityManager.EditToSave | src/pages/admin/CityManager.jsx:97-100 | The update sends the trimmed name and the sector as chosen. |
| CityManager.CityForms.constructor | src/pages/admin/CityManager.jsx:20-28 | The forms start empty, with the first listed sector selected and no row in edit. |
| CityManager.CityForms.SelectSector | src/pages/admin/CityManager.jsx:140-147 | "custom" switches to a new sector name and keeps the selected option. A listed sector is selected and leaves custom mode. Nothing else changes. |
| CityManager.CityForms.SetNewCity | src/pages/admin/CityManager.jsx:168 | Only the city box changes. |
| CityManager.CityForms.SetCustomSectorName | src/pages/admin/CityManager.jsx:157 | Only the new-sector box changes. |
| CityManager.CityForms.HandleAdd | src/pages/admin/CityManager.jsx:47-68 | Sends `CityToInsert` of the state, and sends nothing exactly when the button is disabled. After a successful insert the city box is cleared, and the sector box too in custom mode; otherwise nothing changes. |
| CityManager.CityForms.StartEdit | src/pages/admin/CityManager.jsx:87-91 | The row enters edit mode with the city's name and its sector or the default. |
| CityManager.CityForms.SetEditName | src/pages/admin/CityManager.jsx:196 | Only the edit name changes. |
| CityManager.CityForms.SetEditSector | src/pages/admin/CityManager.jsx:203 | Only the edit sector changes. |
| CityManager.CityForms.CancelEdit | src/pages/admin/CityManager.jsx:221 | The row leaves edit mode; nothing else changes. |
| CityManager.CityForms.SaveEdit | src/pages/admin/CityManager.jsx:93-111 | The update targets the edited id with the trimmed name. The row leaves edit mode only when the update succeeds. |
| ImageOptimizer.EncodeUriComponent | src/lib/imageOptimizer.js:17 | The encoding uses only unreserved characters and `%` escapes, so it holds no `&`, `=`, `?` or `#`. |
| ImageOptimizer.EncodeUnreservedIsIdentity | src/lib/imageOptimizer.js:17 | Text made of unreserved characters is left unchanged. |
| ImageOptimizer.DecodeEncode | src/lib/imageOptimizer.js:17 | Percent-decoding the encoding gives back the text: nothing of the address is lost. |
| ImageOptimizer.CleanUrl | src/lib/imageOptimizer.js:15 | The address before its first `?` holds no `?`. |
| ImageOptimizer.GetOptimizedImageUrl | src/lib/imageOptimizer.js:1-17 | Absent or empty gives "". Addresses starting with `blob:` or `data:`, or not with `http`, come back unchanged. Remote ones become the proxy address built from the cleaned address and the width (800 by default). |
| ImageOptimizer.WidthDefaultsTo800 | src/lib/imageOptimizer.js:1 | Omitting the width is the same as asking for 800. |
| ImageOptimizer.QueryStringIgnored | src/lib/imageOptimizer.js:15 | Two remote addresses that agree up to their first `?` give the same proxy address. |
| ImageOptimizer.RewriteKeepsSource | src/lib/imageOptimizer.js:15-17 | Decoding the `url` parameter of a rewritten address gives back the original address without its query string. |
| ImageOptimizer.RewriteKeepsWidth | src/lib/imageOptimizer.js:17 | The `w` parameter of a rewritten address reads back as the requested width. |
| SearchContext.InitialFilters | src/context/SearchContext.jsx:6-13 | Status and type are "Tous"; cities and features are empty; budget, minimum surface and minimum rooms are ""; results are hidden. |
| SearchContext.SearchState.constructor | src/context/SearchContext.jsx:5-13 | A new provider holds the initial state. |
| SearchContext.SearchState.ResetFilters | src/context/SearchContext.jsx:15-24 | Every field returns to its initial value; resetting an already reset state changes nothing. |
| SearchContext.SearchState.SetActiveStatus | src/context/SearchContext.jsx:6 | Only the status changes. |
| SearchContext.SearchState.SetActiveType | src/context/SearchContext.jsx:7 | Only the type changes. |
| SearchContext.SearchState.SetActiveCities | src/context/SearchContext.jsx:8 | Only the cities change. |
| SearchContext.SearchState.SetActiveBudget | src/context/SearchContext.jsx:9 | Only the budget changes. |
| SearchContext.SearchState.SetActiveMinSurface | src/context/SearchContext.jsx:10 | Only the minimum surface changes. |
| SearchContext.SearchState.SetActiveMinRooms | src/context/SearchContext.jsx:11 | Only the minimum rooms change. |
| SearchContext.SearchState.SetActiveFeatures | src/context/SearchContext.jsx:12 | Only the features change. |
| SearchContext.SearchState.SetShowFilteredResults | src/context/SearchContext.jsx:13 | Only the results flag changes. |
| SearchContext.UseSearch | src/context/SearchContext.jsx:45-50 | Outside a provider `useSearch` fails with "useSearch must be used within a SearchProvider"; inside one it returns the provider's state. |
| ContentScript.MatchAtComplete | extension/content.js:20 | Every occurrence of `/digits_digits_digits_` is matched at its position, with the middle run as the id. |
| ContentScript.MatchAtSound | extension/content.js:20 | Whatever is matched at a position is such an occurrence, and the id is its middle run. |
| ContentScript.FbImageIdOfLeftmostMatch | extension/content.js:18-23 | The id is the middle digit run of the leftmost occurrence of the pattern. |
| ContentScript.FbImageIdWithoutMatch | extension/content.js:21 | A url without the pattern is its own id. |
| ContentScript.FbImageIdExample | extension/content.js:16-17 | For `/12_345_6_n.jpg`, the id is the middle number, 345. |
| ContentScript.FbImageIdExampleWithoutId | extension/content.js:21 | `/photo_1.jpg` does not follow the layout and is its own id. |
| ContentScript.DedupFacebookImages | extension/content.js:57-66 | The loop keeps the first url of each photo id, in order. No two kept urls share an id; every id of the input keeps a url; the output is a subsequence, so it is no longer than the input. |
| ContentScript.LongestIsCandidate | extension/content.js:71-74 | The pick is "" or one of the candidate texts. |
| ContentScript.LongestIsMaximal | extension/content.js:73 | No candidate is longer, in UTF-16 code units, than the pick. |
| ContentScript.LongestIsFirstMaximal | extension/content.js:73 | Among the longest candidates, the first one is picked (strict `>`). |
| ContentScript.LongestOfBlanks | extension/content.js:71-74 | When every candidate is empty, the pick stays "". |
| ContentScript.GenericDescription | extension/content.js:70-75 | The description is the longest text when that is longer than 50 code units, and "" otherwise. |
| ContentScript.GenericImages | extension/content.js:77-84 | The loop collects the sources of the images larger than 300 by 300, each first occurrence once. |
| ContentScript.LargeSrcsMembers | extension/content.js:80-82 | A source is collected exactly when some image larger than 300 by 300 has it, and no source twice. |
| ContentScript.LargeSrcsOrder | extension/content.js:77-84 | The collected sources are in the order of their first appearance. |
| ContentScript.FacebookSuccess | extension/content.js:5 | On Facebook, the scrape succeeds exactly when there is a description or at least one raw image url. |
| ContentScript.LongTextExists | extension/content.js:75 | The generic description is non-empty exactly when some candidate is longer than 50 code units. |
| ContentScript.LargeImageExists | extension/content.js:80 | Some source is collected exactly when some image is larger than 300 by 300. |
| ContentScript.GenericSuccess | extension/content.js:5 | In the fallback, the scrape succeeds exactly when some text is longer than 50 code units or some image is larger than 300 by 300. |
| Seqs.FilterMembers | src/pages/Home.jsx:48 | `filter` keeps exactly the elements satisfying the predicate. |
| Seqs.FilterIsSubseq | src/pages/Home.jsx:48 | `filter` keeps the relative order. |
| Seqs.DedupBy | extension/content.js:60-66 | The kept elements have pairwise distinct keys and exactly the keys of the input. |
| Seqs.DedupByKeepsFirst | extension/content.js:62-64 | Each kept element is the first input element with its key. |
| Seqs.DedupByInFirstOccurrenceOrder | src/pages/Home.jsx:56 | Kept elements are in the order in which their keys first occur. |
| Strings.Trim | src/pages/admin/CityManager.jsx:49 | `trim` yields text with no leading or trailing whitespace. |
| Strings.TrimIsSlice | src/pages/admin/CityManager.jsx:49 | `trim` drops only whitespace, and only at the two ends. |
| Strings.SplitThenJoin | src/pages/admin/PropertyForm.jsx:92 | Joining the pieces of `split(d)` with `d` gives the text back. |
| Strings.SplitPiecesAreFree | src/lib/imageOptimizer.js:15 | No piece of `split(d)` contains `d`. |
| Strings.NatToStringValue | src/components/CitySelector.jsx:66 | The decimal text of a count denotes that count. |
| Strings.ParseIntOfInt | src/lib/imageOptimizer.js:17 | `parseInt` reads back the decimal text of any integer, its sign included. |
| Strings.ParseIntOfDecimal | src/pages/Home.jsx:51 | `parseInt` of a decimal number followed by non-digits reads the number. |

## Left out

- Backend calls are left out: every select, insert, update, delete, storage upload and authentication call to the hosted database. Their outcome appears as a parameter where the code branches on it (`insertSucceeded`, `updateSucceeded` in `CityManager.CityForms`). Records read from the database are inputs.
- The DOM and React rendering are left out: markup, animations, `useEffect`, click-outside handling, and the `querySelector`/`closest`/`innerText` calls of the extension. The candidate texts and images the scraper inspects are inputs.
- The Facebook branch's collection of `rawImages` (extension/content.js:37-55) is not part of this model. It is a DOM query (theatre image, then images above 200 by 200 outside sponsored blocks). `DedupFacebookImages` takes the raw list as input.
- The `host.includes("facebook.com")` dispatch and the `description = innerText || textContent` fallback of the scraper are DOM reads, and are not modelled.
- Message passing of the extension (extension/content.js:2-8) is left out; only the `success` flag is modelled.
- The `try`/`catch` of `getFbImageId` is left out: the model takes urls as strings, so `match` cannot throw.
- `PropertyCard` shows `matchScore` and `missingCriteria` when a listing carries them (src/components/PropertyCard.jsx:47-49, 75-79). No file computes them, and the home page filters on type, city and budget only; the model has no match score.
- Home.FilterProperties: the page's `useMemo` omits `activeBudget` from its dependencies (src/pages/Home.jsx:54), so the rendered list can lag behind a budget change. The model is the filter as a function of all three criteria.
- CitySelector.SortSectors: `localeCompare` is modelled as code-point lexicographic order (`LexCompare`), a total order standing for the locale's collation. `Array.prototype.sort` is modelled as an insertion sort: the model proves sortedness and permutation, not the engine's tie order.
- CitySelector.GroupsMatch: both sector reducers (src/components/CitySelector.jsx:77-79, src/pages/admin/CityManager.jsx:114-117) start from a plain `{}`. `Object.entries` lists keys in creation order only for non-integer-like keys, and a sector named like an inherited `Object.prototype` member ("constructor", "toString", "__proto__") finds a truthy value in `acc[...]`, so its `.push` throws. The model (here and in `Sectors.GroupBySector` and `CityManager.GroupCities`) groups every name as an ordinary key: sector names are assumed to be neither array indices nor inherited property names.
- PropertyForm.Payload: `parseFloat` of price and surface (src/pages/admin/PropertyForm.jsx:90-91) is not modelled; those fields pass through as they were.
- Image upload in the listing editor (random file name, storage upload) is foreign I/O and is left out.
- ImageOptimizer.GetOptimizedImageUrl: the width is an integer. A fractional width, or a non-string `url` (which would make `startsWith` throw), is not modelled. `RewriteKeepsWidth` holds for every integer width, negative ones included, since `parseInt` reads the sign.
- ImageOptimizer.DecodeEncode: `encodeURIComponent` is modelled on Unicode scalar values. Lone surrogates, which make it throw, cannot occur in the model's `char`. The reference decoder is stricter than `decodeURIComponent` about malformed input; it is used only on well-formed encodings.
- SearchContext.SearchState: React setters also accept an updater function; only plain values are modelled. Re-rendering and the batching of the eight updates in `resetFilters` are not modelled.
- CityManager: `handleDelete` (a confirmation dialog and a database delete) and `fetchCities` (a database query sorted by sector and name) are I/O and are left out.
- Strings.ParseInt: it reads decimal and `0x` hexadecimal integers. Digits beyond the precision of a JavaScript number are read exactly.
- Strings.Utf16Length: `.length` counts code units; characters above U+FFFF count two. There is no Unicode normalisation.
