/**
 * The text shaper of build_ad.py: per-character script classification memoized in the
 * `latin_letters` table, the Latin-only test, the short-circuit of `fix_arabic_text` and the
 * caption lookup of `get_post_text`. The Unicode database, `str.isalpha` and the
 * reshaping and bidirectional libraries are given to the shaper as functions.
 */
module TextShaper {
  import opened Wrappers
  import opened PyStr
  import opened Descriptor

  class Shaper {
    /** `unicodedata.name` */
    const unicodeName: char -> string
    /** `str.isalpha` on one character */
    const isAlpha: char -> bool
    /** `arabic_reshaper.reshape` */
    const reshape: string -> string
    /** `bidi.algorithm.get_display` */
    const getDisplay: string -> string

    /** The memo table `latin_letters`: character to "is Latin". */
    var latinLetters: map<char, bool>

    /** The classification `is_latin` memoizes: the character's Unicode name mentions LATIN. */
    predicate Latin(c: char) {
      Contains(unicodeName(c), "LATIN")
    }

    /** Every memoized entry is the classification of its key. */
    ghost predicate Valid()
      reads this
    {
      forall c :: c in latinLetters ==> latinLetters[c] == Latin(c)
    }

    /** The letters of `s`: the characters `is_latin` may be asked about. */
    function Letters(s: string): set<char> {
      set i | 0 <= i < |s| && isAlpha(s[i]) :: s[i]
    }

    /** The table keeps every old entry and gains keys from `added` only. */
    ghost predicate Extends(before: map<char, bool>, added: set<char>)
      reads this
    {
      && (forall c :: c in before ==> c in latinLetters && latinLetters[c] == before[c])
      && (forall c :: c in latinLetters ==> c in before || c in added)
    }

    constructor (unicodeName: char -> string, isAlpha: char -> bool,
                 reshape: string -> string, getDisplay: string -> string)
      ensures this.unicodeName == unicodeName && this.isAlpha == isAlpha
      ensures this.reshape == reshape && this.getDisplay == getDisplay
      ensures latinLetters == map[]
      ensures Valid()
    {
      this.unicodeName := unicodeName;
      this.isAlpha := isAlpha;
      this.reshape := reshape;
      this.getDisplay := getDisplay;
      latinLetters := map[];
    }

    /** `is_latin(c)`: answer from the table, or classify and remember. */
    method IsLatin(c: char) returns (r: bool)
      requires Valid()
      modifies this
      ensures Valid()
      ensures r == Latin(c)
      ensures latinLetters == old(latinLetters)[c := r]
    {
      if c in latinLetters {
        r := latinLetters[c];
        assert latinLetters[c := r] == latinLetters;
      } else {
        r := Contains(unicodeName(c), "LATIN");
        latinLetters := latinLetters[c := r];
      }
    }

    /** Every letter of `s` is Latin; true of a string without letters. */
    predicate OnlyRoman(s: string) {
      forall i :: 0 <= i < |s| && isAlpha(s[i]) ==> Latin(s[i])
    }

    /**
     * `only_roman_chars(s)`: `all(...)` over the letters of `s`, stopping at the first letter
     * that is not Latin.
     */
    method OnlyRomanChars(s: string) returns (r: bool)
      requires Valid()
      modifies this
      ensures Valid()
      ensures r == OnlyRoman(s)
      ensures Extends(old(latinLetters), Letters(s))
    {
      var i := 0;
      while i < |s|
        invariant 0 <= i <= |s|
        invariant Valid()
        invariant forall j :: 0 <= j < i && isAlpha(s[j]) ==> Latin(s[j])
        invariant Extends(old(latinLetters), Letters(s))
      {
        if isAlpha(s[i]) {
          var latin := IsLatin(s[i]);
          if !latin {
            return false;
          }
        }
        i := i + 1;
      }
      return true;
    }

    /** What `fix_arabic_text` returns: the text itself when it is Latin-only, else shaped. */
    function Shaped(text: string): string {
      if OnlyRoman(text) then text else getDisplay(reshape(text))
    }

    /** `fix_arabic_text(text)` */
    method FixArabicText(text: string) returns (t: string)
      requires Valid()
      modifies this
      ensures Valid()
      ensures t == Shaped(text)
      ensures Extends(old(latinLetters), Letters(text))
    {
      var roman := OnlyRomanChars(text);
      if roman {
        return text;
      }
      t := getDisplay(reshape(text));
    }

    /** Text without a non-Latin letter passes through the shaper unchanged. */
    lemma LatinTextUnchanged(text: string)
      requires forall i :: 0 <= i < |text| && isAlpha(text[i]) ==> Latin(text[i])
      ensures Shaped(text) == text
    {
    }

    /** A single non-Latin letter sends the whole text through reshaping and reordering. */
    lemma ForeignLetterReshapes(text: string, i: nat)
      requires i < |text| && isAlpha(text[i]) && !Latin(text[i])
      ensures Shaped(text) == getDisplay(reshape(text))
    {
    }

    /** What `get_post_text(meta, cap)` returns. */
    function PostText(meta: Metadata, cap: Caption): string {
      match CaptionLookup(meta, cap)
      case None => ""
      case Some(raw) => Shaped(raw)
    }

    /** `get_post_text(meta, cap)` */
    method GetPostText(meta: Metadata, cap: Caption) returns (text: string)
      requires Valid()
      modifies this
      ensures Valid()
      ensures text == PostText(meta, cap)
      ensures CaptionLookup(meta, cap).Some? ==> Extends(old(latinLetters), Letters(CaptionLookup(meta, cap).value))
      ensures CaptionLookup(meta, cap).None? ==> latinLetters == old(latinLetters)
    {
      if cap.lang.Some? && cap.lang.value in meta {
        var langDict := meta[cap.lang.value];
        if cap.text.Some? && cap.text.value in langDict {
          text := FixArabicText(langDict[cap.text.value]);
          return;
        }
      }
      text := "";
    }

    /** A caption whose language or field does not resolve renders as the empty string. */
    lemma PostTextWhenUnresolved(meta: Metadata, cap: Caption)
      requires cap.lang.None? || cap.lang.value !in meta || cap.text.None?
            || cap.text.value !in meta[cap.lang.value]
      ensures PostText(meta, cap) == ""
    {
    }

    /** A caption that resolves renders as the shaped metadata value. */
    lemma PostTextWhenResolved(meta: Metadata, lang: string, field: string, cap: Caption)
      requires cap.lang == Some(lang) && cap.text == Some(field)
      requires lang in meta && field in meta[lang]
      ensures PostText(meta, cap) == Shaped(meta[lang][field])
    {
    }
  }
}
