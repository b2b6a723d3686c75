# Top Res Any City: a verified model of the client's logic

The application asks the Gemini model for the top restaurants of a city and shows them as cards. Cards can be saved as favorites. The API keys are kept in the browser's key-value store. This project models the three pieces of that client that are logic rather than UI, and proves what they promise:

- **The Gemini service** (`services/geminiService.ts`), module `GeminiService`.
  - `cleanJsonOutput` trims the model's text. It then removes one leading code fence (```` ```json ```` or ```` ``` ````) with the whitespace after it, and one trailing ```` ``` ```` with the whitespace before it.
  - `fetchTopRestaurants` is a function over abstract inputs that fixes the order of its guards:
    1. the API key;
    2. the request;
    3. the reply text;
    4. sanitising, then parsing.
  - The prompt is built around the city.
  - JavaScript's `trim` and the regular-expression class `\s` share one whitespace predicate, the ECMAScript WhiteSpace and LineTerminator set. It lives in module `EcmaString`.
- **The storage service** (`services/storageService.ts`), module `StorageService`.
  - API keys are obfuscated with `btoa`, and read back with `atob`. If the primitive throws, the text is used unchanged. Module `Base64` models the primitives:
    - encoding follows section 4 of RFC 4648;
    - decoding is the "forgiving-base64 decode" algorithm of the WHATWG Infra Standard, which `atob` of the HTML Standard calls;
    - `btoa` throws on any character above U+00FF.
  - The store is a class whose `items` field is a `map<string, string>`. The methods replace that field.
- **The page state** (`App.tsx`), module `App`.
  - `toggleFavorite` is the pure function `Toggled` over the favorites list. Lemmas about it follow.
  - The search life cycle is a class `AppState`. It holds `loadingState`, `restaurants`, `currentCity`, `errorMsg`, `favorites` and `isFavoritesOpen`.
    - `BeginSearch` models the synchronous start of `handleSearch`, and `FinishSearch` models its resolution or failure.
    - `HandleSearch` runs both around the fetch model.
    - A ghost invariant `Valid` holds between any two events.
  - The derived flags `displayedRestaurants`, `isFavoritesEmpty` and `isFavorite` are functions of that state.

Module `Types` holds the `Restaurant` record and the `LoadingState` enumeration of `types.ts`. Module `Wrappers` holds `Option` and `Result`.

## Model

| member | source | states |
|---|---|---|
| EcmaString.TrimStart | services/geminiService.ts:8 | the result is a suffix of the input, everything removed is whitespace, and it does not start with whitespace |
| EcmaString.TrimEnd | services/geminiService.ts:8 | the result is a prefix of the input, everything removed is whitespace, and it does not end with whitespace |
| EcmaString.Trim | services/geminiService.ts:8 | the result neither starts nor ends with whitespace and is no longer than the input |
| EcmaString.TrimKeepsMiddle | services/geminiService.ts:8 | `trim` keeps the piece that starts where the leading whitespace ends; only whitespace lies on either side of it |
| EcmaString.TrimAround | services/geminiService.ts:8 | trimming whitespace + t + whitespace, for a trimmed t, gives exactly t |
| GeminiService.StripLeading | services/geminiService.ts:11-13 | the anchored `^tag\s*` replace: unchanged without the tag; otherwise exactly the tag and the longest following whitespace run are removed |
| GeminiService.StripTrailingFence | services/geminiService.ts:11-13 | the `\s*```$` replace: unchanged without a final fence; otherwise the final fence and the whole whitespace run before it are removed, and nothing else |
| GeminiService.CleanWithoutFence | services/geminiService.ts:8-15 | if the trimmed text does not start with a fence, the output is exactly the trimmed text |
| GeminiService.CleanJsonOutput | services/geminiService.ts:7-16 | the sanitised text is never longer than the raw text; the lemmas below say which piece of it is kept |
| GeminiService.CleanIsPieceOfInput | services/geminiService.ts:8-15 | the output is always a contiguous piece of the input, so never longer |
| GeminiService.CleanJsonBlock | services/geminiService.ts:10-11 | whitespace, ```` ```json ````, whitespace, a trimmed body, whitespace, ```` ``` ````, whitespace: the output is exactly the body |
| GeminiService.CleanBareBlock | services/geminiService.ts:12-13 | the same for a bare opening fence whose content does not begin with `json` |
| GeminiService.CleanKeepsUnknownTag | services/geminiService.ts:10-13 | a fence tagged with any word not beginning with `json` loses only the fences: the word stays at the front of the output (a word such as `jsonc` that begins with `json` takes the `json` branch instead, see the next row) |
| GeminiService.JsonTagTakesPrecedence | services/geminiService.ts:10-11 | text starting with ```` ```json ```` followed by more word characters takes the `json` branch, so only those extra characters remain in front |
| GeminiService.CleanRemovesOneFencePair | services/geminiService.ts:11-13 | with two fences at each end, exactly one is removed at each end |
| GeminiService.Quoted | services/geminiService.ts:27 | the city between double quotes: two characters longer, a quote at each end, the city verbatim inside |
| GeminiService.Prompt | services/geminiService.ts:25-52 | the fixed template with the city inserted once, between double quotes: the prompt contains the quoted city verbatim |
| GeminiService.PromptDeterminesCity | services/geminiService.ts:25-52 | different cities give different prompts, so the city inserted can be read back from the prompt |
| GeminiService.FetchTopRestaurants | services/geminiService.ts:18-78 | with no key there is no request and the result is "API Key is missing"; with a key the request is the model name, the prompt and the search tool; with an error reply the result is that error; with empty text it is "No content generated"; otherwise the parser sees exactly `CleanJsonOutput(text)` and decides the result; success implies the parser ran |
| Base64.EncodeUnpaddedLength | services/storageService.ts:19 | four alphabet characters per full group of three bytes, and two or three for a final partial group |
| Base64.EncodeLength | services/storageService.ts:19 | the padded encoding of n bytes has 4 * ceil(n / 3) characters |
| Base64.Encode | services/storageService.ts:19 | the encoding consists only of alphabet and pad characters, a multiple of four of them |
| Base64.DecodeEncodeUnpadded | services/storageService.ts:17-31 | decoding the unpadded encoding gives back the bytes |
| Base64.PaddingRemoved | services/storageService.ts:27 | forgiving decode removes exactly the padding that encoding added |
| Base64.DecodeEncode | services/storageService.ts:17-31 | forgiving-base64 decode inverts base64 encoding |
| Base64.Btoa | services/storageService.ts:19 | `btoa` succeeds exactly on strings whose characters are all at most U+00FF |
| Base64.ForgivingDecode | services/storageService.ts:27 | text of alphabet characters only decodes as it stands unless its length is one more than a multiple of four, and then it is rejected; a successful decode never gives more bytes than the text has characters |
| Base64.StrayCharacterFails | services/storageService.ts:27 | any character that is not alphabet, pad or ASCII whitespace makes the decode fail |
| Base64.Atob | services/storageService.ts:27 | `atob` succeeds exactly when forgiving-base64 decode does, and then gives a string of characters at most U+00FF, one per decoded byte |
| Base64.AtobBtoa | services/storageService.ts:17-31 | `atob` gives back every string that `btoa` accepts |
| StorageService.Obfuscate | services/storageService.ts:17-23 | unchanged when `btoa` throws; otherwise base64 characters only, 4 * ceil(n / 3) of them, and `atob` gives the text back; empty exactly for the empty text |
| StorageService.Deobfuscate | services/storageService.ts:25-31 | unchanged when `atob` rejects the text; otherwise a string of characters at most U+00FF |
| StorageService.DeobfuscateObfuscate | services/storageService.ts:17-31 | de-obfuscating an obfuscated value gives the value back, for every string: a byte string decodes, and any other string is stored as it is and is always rejected by `atob` |
| StorageService.NonByteStringFailsAtob | services/storageService.ts:25-30 | `atob` rejects every string holding a character above U+00FF |
| StorageService.Storage.constructor | services/storageService.ts:1-4 | the store the service wraps is the persistent `localStorage`: it starts with whatever entries earlier sessions left in it |
| StorageService.Storage.SaveApiKey | services/storageService.ts:35-41 | an empty key removes the entry; any other key stores `obfuscate(key)`; no other entry changes; `getApiKey` afterwards returns the saved key |
| StorageService.Storage.GetApiKey | services/storageService.ts:44-47 | empty when the entry is missing or empty; the stored value itself when `atob` rejects it |
| StorageService.Storage.SetItem | services/storageService.ts:50-52 | map update: a get then returns the value, other keys read as before |
| StorageService.Storage.GetItem | services/storageService.ts:54-56 | map lookup: present exactly when the key is stored, with the stored value; `None` models `null` |
| StorageService.Storage.RemoveItem | services/storageService.ts:58-60 | map delete: a get then returns `None`, other keys read as before |
| App.HasId | App.tsx:35 | `some(f => f.id === id)` holds exactly when the id is among the list's ids; line 131 uses the same test for the card flag |
| App.WithoutId | App.tsx:36 | `filter`: the survivors are exactly the entries with another id, kept in their order as a subsequence of the list, never more entries than before |
| App.Toggled | App.tsx:34-40 | a saved id is removed with every entry that has it, so the list gets shorter; an unsaved restaurant is appended at the end behind the unchanged list |
| App.ToggledIds | App.tsx:34-40 | the ids after a toggle are the old ids minus the restaurant's id when it was saved, plus it otherwise |
| App.ToggleKeepsOthers | App.tsx:36-38 | the entries with other ids are the same, in the same order, after a toggle |
| App.ToggleTwiceFromAbsent | App.tsx:34-40 | toggling an unsaved restaurant twice restores the list exactly |
| App.ToggleTwiceFromPresent | App.tsx:34-40 | toggling a saved restaurant twice restores the set of ids; the entry ends up once, at the end |
| App.ToggleKeepsUnique | App.tsx:34-40 | unique ids stay unique through a toggle |
| App.ToggleFlipsFlag | App.tsx:34-40 | a toggle negates the card's `some(f => f.id === r.id)` flag of line 131 |
| App.AppState.constructor | App.tsx:10-27 | idle, no results, no city, no message, favorites view closed, the saved favorites loaded |
| App.AppState.ToggleFavorite | App.tsx:34-40 | the favorites become `Toggled(favorites, r)`, the card flag flips, nothing else changes; an open favorites view shows the toggled list at once, and the results view shows what it showed before |
| App.AppState.ToggleFavoritesView | App.tsx:80 | the favorites view opens or closes; nothing else changes; opening shows the favorites and closing shows the search results |
| App.AppState.CloseFavoritesView | App.tsx:113 | "Go Discover" closes the favorites view; nothing else changes; the page shows the search results and the empty-favorites notice is gone |
| App.AppState.BeginSearch | App.tsx:43-48 | LOADING, no results, no message, the new city, favorites view closed, favorites untouched; the page shows an empty results list |
| App.AppState.FinishSearch | App.tsx:50-57 | success stores the results and sets SUCCESS; failure sets ERROR and the fixed message; when no other search overlapped, success leaves the message empty and failure leaves the results empty; outside the favorites view the results are shown as soon as they arrive |
| App.AppState.HandleSearch | App.tsx:42-58 | a whole search ends in SUCCESS with the fetched results and no message, or in ERROR with no results and the fixed message; never IDLE or LOADING; a missing key always ends in ERROR; afterwards the page shows the fetched list, or an empty list after a failure, and never the empty-favorites notice |
| App.NeverIdleAgain | App.tsx:10-56 | once a search has begun, `loadingState` is never IDLE again |
| App.AppState.DisplayedRestaurants | App.tsx:61 | the favorites while the favorites view is open, otherwise the search results; what it shows after each event is stated by `ToggleFavorite`, `ToggleFavoritesView`, `CloseFavoritesView`, `BeginSearch`, `FinishSearch` and `HandleSearch` |
| App.AppState.IsFavoritesEmpty | App.tsx:62 | holds exactly when the favorites view is open and shows nothing |
| App.AppState.IsFavorite | App.tsx:131 | holds exactly when the restaurant's id is among the saved ids |

## Left out

- The Gemini request itself (`new GoogleGenAI`, `generateContent`) and `JSON.parse` are foreign code. The reply, or the error the call throws, is an input of `FetchTopRestaurants`. The parser is a function parameter. `JSON.parse` can return any JSON value and nothing checks the `Restaurant[]` annotation, so the model assumes that a successful parse gives a list of restaurants.
- The API key comes from the build-time environment variable `process.env.API_KEY`. It is an input.
- `console.error` in the catch block of `fetchTopRestaurants` is I/O. After it the error is rethrown unchanged, and the model returns the error unchanged.
- Overlapping searches. `handleSearch` is asynchronous and nothing stops an older search from finishing after a newer one. `FinishSearch` accepts results in any order, and `Valid` holds throughout. The sequential outcome is only promised when no other search overlaps.
- Persistence of favorites. `App.tsx:23-32` reads the list from the store through `JSON.parse` at start-up: the constructor takes the parsed list. It writes the list back after every change through `JSON.stringify`. Serialisation is not modelled.
- Image enrichment, brace slicing and control-character replacement in the sanitiser. They do not exist in the code.
- The UI components (`RestaurantCard`, `LoadingView`, `HelpModal`, `SearchBar`, `ApiKeysModal`), the theme table and the settings menu of `App.tsx`, and `capacitor.config.ts`. They are presentation or build data.
- `ApiKeysModal` writes keys to the store without obfuscation. `StorageService.Storage.GetApiKey` would then run `atob` on such a raw key. No round trip across the two is claimed.
- The `SearchBar` submit guard, which only sends a trimmed, non-empty city. `HandleSearch` accepts any city, as `handleSearch` does.
- Characters are Unicode scalar values, while JavaScript strings are UTF-16 code units. The two differ for characters above U+FFFF, which are two code units in JavaScript and one character here, and for unpaired surrogates U+D800 to U+DFFF, which a JavaScript string can hold and no Dafny string can. All of these are above U+00FF, so `btoa` throws on them either way, and none of them is whitespace, so `trim` and `\s` are unaffected.
- `rating` is a `real`, not a floating-point number. Only `id` takes part in any proof.
- The `STORAGE_KEYS` names are constants of `StorageService`. Nothing is proved about them.
