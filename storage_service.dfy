/**
 * The storage service: a thin layer over the browser's key-value store, where
 * API keys are kept base64-obfuscated and all other items are kept as given.
 * The store itself is a map from key to value that the methods replace.
 */
module StorageService {
  import opened Wrappers
  import opened Base64

  // Keys under which the application keeps its data.
  const GeminiKey: string := "gemini_api_key"
  const PexelsKey: string := "pexels_api_key"
  const PixabayKey: string := "pixabay_api_key"
  const FavoritesKey: string := "favorites"

  /** `btoa(text)`, or `text` itself when `btoa` throws. */
  function Obfuscate(text: string): (r: string)
    ensures !IsByteString(text) ==> r == text
    ensures IsByteString(text) ==> Atob(r) == Some(text) && |r| == 4 * ((|text| + 2) / 3)
    ensures IsByteString(text) ==> forall i :: 0 <= i < |r| ==> IsBase64Char(r[i]) || r[i] == Pad
    ensures r == [] <==> text == []
  {
    match Btoa(text)
    case Some(e) =>
      AtobBtoa(text);
      EncodeLength(ToBytes(text));
      EncodeNonEmpty(ToBytes(text));
      e
    case None => text
  }

  /** `atob(text)`, or `text` itself when `atob` throws. */
  function Deobfuscate(text: string): (r: string)
    ensures Atob(text).None? ==> r == text
    ensures Atob(text).Some? ==> IsByteString(r) && Btoa(r).Some?
  {
    match Atob(text)
    case Some(d) => d
    case None => text
  }

  /** Reading back an obfuscated value always gives the value: a byte string
      decodes, and any other string was stored unchanged and cannot decode. */
  lemma DeobfuscateObfuscate(text: string)
    ensures Deobfuscate(Obfuscate(text)) == text
  {
    if !IsByteString(text) {
      NonByteStringFailsAtob(text);
    }
  }

  /** Encoding something gives something. */
  lemma EncodeNonEmpty(b: seq<byte>)
    ensures Encode(b) == [] <==> b == []
  {
    if b != [] {
      assert |EncodeUnpadded(b)| >= 2;
    }
  }

  /** A character above U+00FF is neither whitespace, pad nor alphabet, so `atob` rejects the string. */
  lemma NonByteStringFailsAtob(s: string)
    requires !IsByteString(s)
    ensures Atob(s) == None
  {
    var i :| 0 <= i < |s| && s[i] > '\U{00FF}';
    StrayCharacterFails(s, i);
  }

  /** The key-value store. */
  class Storage {
    var items: map<string, string>

    /** The store as the page finds it: whatever earlier sessions left in it. */
    constructor(initial: map<string, string>)
      ensures items == initial
    {
      items := initial;
    }

    /** An empty key removes the entry; any other key is stored obfuscated; the key reads back. */
    method SaveApiKey(keyName: string, apiKey: string)
      modifies this
      ensures apiKey == [] ==> items == old(items) - {keyName}
      ensures apiKey != [] ==> items == old(items)[keyName := Obfuscate(apiKey)]
      ensures GetApiKey(keyName) == apiKey
    {
      if apiKey == [] {
        items := items - {keyName};
        return;
      }
      items := items[keyName := Obfuscate(apiKey)];
      DeobfuscateObfuscate(apiKey);
    }

    /** The stored value de-obfuscated, or empty when it is missing or empty. */
    function GetApiKey(keyName: string): (r: string)
      reads this
      ensures keyName !in items ==> r == []
      ensures keyName in items && items[keyName] == [] ==> r == []
      ensures keyName in items && Atob(items[keyName]).None? ==> r == items[keyName]
    {
      if keyName in items && items[keyName] != [] then Deobfuscate(items[keyName]) else []
    }

    /** Stores `value` unchanged under `key`. */
    method SetItem(key: string, value: string)
      modifies this
      ensures items == old(items)[key := value]
      ensures GetItem(key) == Some(value)
      ensures forall k :: k != key ==> GetItem(k) == old(GetItem(k))
    {
      items := items[key := value];
    }

    /** The stored value, or `None` (JavaScript `null`) when there is none. */
    function GetItem(key: string): (r: Option<string>)
      reads this
      ensures r.Some? <==> key in items
      ensures r.Some? ==> r.value == items[key]
    {
      if key in items then Some(items[key]) else None
    }

    /** Removes the entry under `key`, if any. */
    method RemoveItem(key: string)
      modifies this
      ensures items == old(items) - {key}
      ensures GetItem(key) == None
      ensures forall k :: k != key ==> GetItem(k) == old(GetItem(k))
    {
      items := items - {key};
    }
  }
}
