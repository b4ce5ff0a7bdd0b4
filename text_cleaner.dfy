/** The text utilities: the character-level tail of `clean_text`,
    `deduplicate_paragraphs` and `chunk_text`. */
module TextCleaner {
  import opened Options
  import opened Seqs
  import opened Strings
  import opened Dicts
  import opened FirstOccurrence

  // ---------------------------------------------------------------------------
  // clean_text: options

  /** `config = config or {}` followed by `config.get(name, default)`; option values
      are booleans here. */
  function Enabled(config: Option<Dict<bool>>, name: string, default: bool): bool {
    GetOr(config.GetOr([]), name, default)
  }

  function NormalizeWhitespaceOn(config: Option<Dict<bool>>): bool { Enabled(config, "normalize_whitespace", true) }
  function RemoveHtmlOn(config: Option<Dict<bool>>): bool { Enabled(config, "remove_html", true) }
  function RemoveUrlsOn(config: Option<Dict<bool>>): bool { Enabled(config, "remove_urls", false) }
  function RemoveEmailsOn(config: Option<Dict<bool>>): bool { Enabled(config, "remove_emails", true) }
  function NormalizeUnicodeOn(config: Option<Dict<bool>>): bool { Enabled(config, "normalize_unicode", true) }
  function RemoveControlCharsOn(config: Option<Dict<bool>>): bool { Enabled(config, "remove_control_chars", true) }

  /** Without a config, or with an empty one, every option is on except `remove_urls`. */
  lemma DefaultOptions(config: Option<Dict<bool>>)
    requires config == None || config == Some([])
    ensures NormalizeWhitespaceOn(config) && RemoveHtmlOn(config) && RemoveEmailsOn(config)
    ensures NormalizeUnicodeOn(config) && RemoveControlCharsOn(config)
    ensures !RemoveUrlsOn(config)
  {
  }

  // ---------------------------------------------------------------------------
  // clean_text: unicode replacement

  /** The characters the unicode step replaces by something else: curly quotes, the
      en dash, the ellipsis and the no-break space. */
  const Typographic: set<char> := {'\U{2018}', '\U{2019}', '\U{201c}', '\U{201d}', '\U{2013}', '\U{2026}', '\U{a0}'}

  /** No character of `s` is in `bad`. */
  predicate Avoids(s: string, bad: set<char>) {
    forall i :: 0 <= i < |s| ==> s[i] !in bad
  }

  lemma AvoidsConcat(a: string, b: string, bad: set<char>)
    requires Avoids(a, bad) && Avoids(b, bad)
    ensures Avoids(a + b, bad)
  {
  }

  /** A replacement whose text avoids `bad` and `c` leaves a string that avoids both. */
  lemma {:induction false} ReplaceAvoids(s: string, c: char, rep: string, bad: set<char>)
    requires Avoids(s, bad) && Avoids(rep, bad + {c})
    ensures Avoids(ReplaceChar(s, c, rep), bad + {c})
    decreases |s|
  {
    if s != [] {
      assert forall i :: 0 <= i < |s[1..]| ==> s[1..][i] == s[i + 1];
      ReplaceAvoids(s[1..], c, rep, bad);
      var head := if s[0] == c then rep else [s[0]];
      AvoidsConcat(head, ReplaceChar(s[1..], c, rep), bad + {c});
    }
  }

  /** The replacement chain, in source order. The em dash is replaced by the em dash. */
  function NormalizeUnicode(s: string): (r: string)
    ensures Avoids(r, Typographic)
  {
    NormalizeUnicodeAvoids(s);
    ReplaceChar(ReplaceChar(ReplaceChar(ReplaceChar(ReplaceChar(ReplaceChar(ReplaceChar(ReplaceChar(
      s, '\U{2018}', "'"), '\U{2019}', "'"), '\U{201c}', "\""), '\U{201d}', "\""), '\U{2013}', "-"),
      '\U{2014}', "\U{2014}"), '\U{2026}', "..."), '\U{a0}', " ")
  }

  lemma NormalizeUnicodeAvoids(s: string)
    ensures Avoids(ReplaceChar(ReplaceChar(ReplaceChar(ReplaceChar(ReplaceChar(ReplaceChar(ReplaceChar(ReplaceChar(
      s, '\U{2018}', "'"), '\U{2019}', "'"), '\U{201c}', "\""), '\U{201d}', "\""), '\U{2013}', "-"),
      '\U{2014}', "\U{2014}"), '\U{2026}', "..."), '\U{a0}', " "), Typographic)
  {
    var s1 := ReplaceChar(s, '\U{2018}', "'");
    var s2 := ReplaceChar(s1, '\U{2019}', "'");
    var s3 := ReplaceChar(s2, '\U{201c}', "\"");
    var s4 := ReplaceChar(s3, '\U{201d}', "\"");
    var s5 := ReplaceChar(s4, '\U{2013}', "-");
    var s6 := ReplaceChar(s5, '\U{2014}', "\U{2014}");
    var s7 := ReplaceChar(s6, '\U{2026}', "...");
    ReplaceAvoids(s, '\U{2018}', "'", {});
    ReplaceAvoids(s1, '\U{2019}', "'", {'\U{2018}'});
    ReplaceAvoids(s2, '\U{201c}', "\"", {'\U{2018}', '\U{2019}'});
    ReplaceAvoids(s3, '\U{201d}', "\"", {'\U{2018}', '\U{2019}', '\U{201c}'});
    ReplaceAvoids(s4, '\U{2013}', "-", {'\U{2018}', '\U{2019}', '\U{201c}', '\U{201d}'});
    ReplaceCharBySelf(s5, '\U{2014}');
    ReplaceAvoids(s6, '\U{2026}', "...", {'\U{2018}', '\U{2019}', '\U{201c}', '\U{201d}', '\U{2013}'});
    ReplaceAvoids(s7, '\U{a0}', " ", {'\U{2018}', '\U{2019}', '\U{201c}', '\U{201d}', '\U{2013}', '\U{2026}'});
    assert {'\U{2018}', '\U{2019}', '\U{201c}', '\U{201d}', '\U{2013}', '\U{2026}'} + {'\U{a0}'} == Typographic;
  }

  /** Replacing a character that does not occur changes nothing. */
  lemma {:induction false} ReplaceAbsent(s: string, c: char, rep: string)
    requires c !in s
    ensures ReplaceChar(s, c, rep) == s
    decreases |s|
  {
    if s != [] {
      assert s == [s[0]] + s[1..];
      ReplaceAbsent(s[1..], c, rep);
    }
  }

  /** Text without typographic characters passes the unicode step unchanged. */
  lemma NormalizeUnicodeUnchanged(s: string)
    requires Avoids(s, Typographic)
    ensures NormalizeUnicode(s) == s
  {
    ReplaceAbsent(s, '\U{2018}', "'");
    ReplaceAbsent(s, '\U{2019}', "'");
    ReplaceAbsent(s, '\U{201c}', "\"");
    ReplaceAbsent(s, '\U{201d}', "\"");
    ReplaceAbsent(s, '\U{2013}', "-");
    ReplaceCharBySelf(s, '\U{2014}');
    ReplaceAbsent(s, '\U{2026}', "...");
    ReplaceAbsent(s, '\U{a0}', " ");
  }

  // ---------------------------------------------------------------------------
  // clean_text: control characters and the final strip

  /** The class `[\x00-\x08\x0b\x0c\x0e-\x1f\x7f-\x9f]`: C0 and C1 controls except
      tab, line feed and carriage return. */
  predicate IsControl(c: char) {
    ('\U{0}' <= c <= '\U{8}') || c == '\U{b}' || c == '\U{c}'
    || ('\U{e}' <= c <= '\U{1f}') || ('\U{7f}' <= c <= '\U{9f}')
  }

  /** Deleting every control character. */
  function RemoveControl(s: string): (r: string)
    ensures |r| <= |s|
    ensures forall i :: 0 <= i < |r| ==> !IsControl(r[i])
    ensures forall c :: c in r ==> c in s
    decreases |s|
  {
    if s == [] then []
    else
      var rest := RemoveControl(s[1..]);
      if IsControl(s[0]) then rest else [s[0]] + rest
  }

  /** Text without control characters passes the control step unchanged. */
  lemma {:induction false} RemoveControlUnchanged(s: string)
    requires forall i :: 0 <= i < |s| ==> !IsControl(s[i])
    ensures RemoveControl(s) == s
    decreases |s|
  {
    if s != [] {
      RemoveControlUnchanged(s[1..]);
      assert s == [s[0]] + s[1..];
    }
  }

  /** Lines 41-53 of `clean_text`, applied to the text the regex steps before them
      produce: unicode replacement, control-character deletion, `strip()`. */
  function CleanTextTail(text: string, config: Option<Dict<bool>>): (r: string)
    ensures Trimmed(r)
    ensures NormalizeUnicodeOn(config) ==> Avoids(r, Typographic)
    ensures RemoveControlCharsOn(config) ==> forall i :: 0 <= i < |r| ==> !IsControl(r[i])
  {
    var t1 := if NormalizeUnicodeOn(config) then NormalizeUnicode(text) else text;
    var t2 := if RemoveControlCharsOn(config) then RemoveControl(t1) else t1;
    CharsKept(t1, t2);
    CharsKept(t2, Strip(t2));
    Strip(t2)
  }

  /** A string made of characters of `s` keeps what `s` avoids. */
  lemma CharsKept(s: string, t: string)
    requires forall c :: c in t ==> c in s
    ensures Avoids(s, Typographic) ==> Avoids(t, Typographic)
    ensures (forall i :: 0 <= i < |s| ==> !IsControl(s[i])) ==> forall i :: 0 <= i < |t| ==> !IsControl(t[i])
  {
    forall i | 0 <= i < |t| ensures exists j :: 0 <= j < |s| && s[j] == t[i] {
      assert t[i] in t;
    }
  }

  /** With both steps off only the strip is left. */
  lemma CleanTextTailStripOnly(text: string, config: Option<Dict<bool>>)
    requires !NormalizeUnicodeOn(config) && !RemoveControlCharsOn(config)
    ensures CleanTextTail(text, config) == Strip(text)
  {
  }

  /** Cleaning cleaned text again changes nothing. */
  lemma CleanTextTailIdempotent(text: string, config: Option<Dict<bool>>)
    ensures CleanTextTail(CleanTextTail(text, config), config) == CleanTextTail(text, config)
  {
    var r := CleanTextTail(text, config);
    if NormalizeUnicodeOn(config) {
      NormalizeUnicodeUnchanged(r);
    }
    if RemoveControlCharsOn(config) {
      RemoveControlUnchanged(r);
    }
    StripTrimmed(r);
  }

  // ---------------------------------------------------------------------------
  // deduplicate_paragraphs

  const ParagraphBreak := "\n\n"

  /** `para.strip().lower()`. */
  function ParagraphKey(para: string): string {
    Lower(Strip(para))
  }

  /** `if normalized`: the empty key is never kept. */
  function NonEmptyKey(k: string): bool {
    k != ""
  }

  /** The paragraphs kept, in order. */
  function UniqueParagraphs(text: string): seq<string> {
    FirstByKey(Split(text, ParagraphBreak), ParagraphKey, NonEmptyKey)
  }

  /** The kept paragraphs are the first occurrences of their keys among the
      paragraphs, in the original order; no two share a key and none is blank. */
  lemma UniqueParagraphsFacts(text: string)
    ensures var ps := Split(text, ParagraphBreak);
      var kept := UniqueParagraphs(text);
      && IsSubsequence(kept, ps)
      && kept == FirstOccurrences(ps, ParagraphKey, NonEmptyKey)
      && DistinctKeys(kept, ParagraphKey)
      && (forall i :: 0 <= i < |kept| ==> !IsBlank(kept[i]))
  {
    var ps := Split(text, ParagraphBreak);
    var kept := UniqueParagraphs(text);
    FirstByKeySubsequence(ps, ParagraphKey, NonEmptyKey);
    FirstByKeyIsFirstOccurrences(ps, ParagraphKey, NonEmptyKey);
    FirstByKeyDistinct(ps, ParagraphKey, NonEmptyKey);
    FirstByKeyAdmitted(ps, ParagraphKey, NonEmptyKey);
    forall i | 0 <= i < |kept| ensures !IsBlank(kept[i]) {
      assert NonEmptyKey(ParagraphKey(kept[i]));
      BlankIffStripEmpty(kept[i]);
    }
  }

  /** Text whose paragraphs are all non-blank and pairwise different keys comes back unchanged. */
  lemma DeduplicateDistinctUnchanged(text: string)
    requires AllAdmitted(Split(text, ParagraphBreak), ParagraphKey, NonEmptyKey)
    requires DistinctKeys(Split(text, ParagraphBreak), ParagraphKey)
    ensures Join(UniqueParagraphs(text), ParagraphBreak) == text
  {
    FirstByKeyOfDistinct(Split(text, ParagraphBreak), ParagraphKey, NonEmptyKey);
    JoinSplit(text, ParagraphBreak);
  }

  /** `deduplicate_paragraphs(text)`. */
  method DeduplicateParagraphs(text: string) returns (result: string)
    ensures result == Join(UniqueParagraphs(text), ParagraphBreak)
  {
    var paragraphs := Split(text, ParagraphBreak);
    var unique := KeepFirstParagraphs(paragraphs);
    result := Join(unique, ParagraphBreak);
  }

  /** The `seen`-set loop of `deduplicate_paragraphs`. */
  method KeepFirstParagraphs(paragraphs: seq<string>) returns (unique: seq<string>)
    ensures unique == FirstByKey(paragraphs, ParagraphKey, NonEmptyKey)
  {
    var seen: set<string> := {};
    unique := [];
    for i := 0 to |paragraphs|
      invariant unique == FirstByKey(paragraphs[..i], ParagraphKey, NonEmptyKey)
      invariant seen == KeySet(unique, ParagraphKey)
    {
      FirstByKeyStep(paragraphs, i, ParagraphKey, NonEmptyKey);
      var normalized := ParagraphKey(paragraphs[i]);
      if NonEmptyKey(normalized) && normalized !in seen {
        KeySetAppend(unique, paragraphs[i], ParagraphKey);
        seen := seen + {normalized};
        unique := unique + [paragraphs[i]];
      }
    }
    TakeAll(paragraphs);
  }

  // ---------------------------------------------------------------------------
  // chunk_text

  /** `ws[start:end]` for `start >= 0`, with Python's rules for an `end` that is
      negative (counted from the back) or past the end (clipped). */
  function Slice(ws: seq<string>, start: nat, end: int): (r: seq<string>)
    ensures |r| <= |ws|
  {
    var e := if end < 0 then (if end + |ws| < 0 then 0 else end + |ws|) else (if end > |ws| then |ws| else end);
    if start >= e then [] else ws[start..e]
  }

  /** The chunk that starts at word `start`. */
  function ChunkAt(words: seq<string>, start: nat, chunkSize: int): string {
    Join(Slice(words, start, start + chunkSize), " ")
  }

  /** `chunk_text(text, chunk_size, overlap)`. On text with a word the loop ends only
      when `overlap < chunk_size`; on text without words it does not run at all. */
  method ChunkText(text: string, chunkSize: int, overlap: int) returns (chunks: seq<string>)
    requires overlap < chunkSize || Words(text) == []
    ensures Words(text) == [] ==> chunks == []
    ensures var n, step := |Words(text)|, chunkSize - overlap;
      && |chunks| * step >= n
      && (|chunks| == 0 || (|chunks| - 1) * step < n)
      && forall i :: 0 <= i < |chunks| ==> chunks[i] == ChunkAt(Words(text), i * step, chunkSize)
  {
    var words := Words(text);
    var step := chunkSize - overlap;
    chunks := [];
    var start := 0;
    while start < |words|
      invariant 0 <= start == |chunks| * step
      invariant |chunks| == 0 || (|chunks| - 1) * step < |words|
      invariant forall i :: 0 <= i < |chunks| ==> chunks[i] == ChunkAt(words, i * step, chunkSize)
      decreases |words| - start
    {
      var end := start + chunkSize;
      var chunk := Join(Slice(words, start, end), " ");
      MulSucc(|chunks|, step);
      chunks := chunks + [chunk];
      start := end - overlap;
    }
  }

  lemma MulSucc(k: nat, step: int)
    ensures (k + 1) * step == k * step + step
  {
  }

  lemma MulLess(a: nat, b: nat, step: int)
    requires 0 < step && a * step < b * step
    ensures a < b
  {
  }

  /** A chunk holds the words of its window, at most `chunk_size` of them. */
  lemma ChunkWords(words: seq<string>, start: nat, chunkSize: int)
    requires forall i :: 0 <= i < |words| ==> IsWord(words[i])
    requires 0 < chunkSize && start < |words|
    ensures Words(ChunkAt(words, start, chunkSize))
         == words[start..if start + chunkSize < |words| then start + chunkSize else |words|]
    ensures |Words(ChunkAt(words, start, chunkSize))| <= chunkSize
  {
    var w := Slice(words, start, start + chunkSize);
    assert forall i :: 0 <= i < |w| ==> w[i] == words[start + i];
    WordsOfJoin(w);
  }

  /** With `0 <= overlap < chunk_size`, word `p` lies in the window of chunk `i`, one
      of the `count` chunks. */
  lemma ChunkCovering(n: nat, chunkSize: int, overlap: int, count: nat, p: nat) returns (i: nat)
    requires 0 <= overlap < chunkSize
    requires count * (chunkSize - overlap) >= n
    requires p < n
    ensures i < count && i * (chunkSize - overlap) <= p < i * (chunkSize - overlap) + chunkSize
  {
    var step := chunkSize - overlap;
    i := p / step;
    assert i * step <= p < i * step + step;
    MulLess(i, count, step);
  }

  /** Every word of the text is among the words of some chunk `ChunkText` returns. */
  lemma ChunksCoverWords(text: string, chunkSize: int, overlap: int, chunks: seq<string>, p: nat) returns (i: nat)
    requires 0 <= overlap < chunkSize
    requires var n, step := |Words(text)|, chunkSize - overlap;
      && |chunks| * step >= n
      && forall i :: 0 <= i < |chunks| ==> chunks[i] == ChunkAt(Words(text), i * step, chunkSize)
    requires p < |Words(text)|
    ensures i < |chunks| && Words(text)[p] in Words(chunks[i])
  {
    var words := Words(text);
    var step := chunkSize - overlap;
    i := ChunkCovering(|words|, chunkSize, overlap, |chunks|, p);
    ChunkWords(words, i * step, chunkSize);
    var e := if i * step + chunkSize < |words| then i * step + chunkSize else |words|;
    assert words[i * step..e][p - i * step] == words[p];
  }

  /** Text without words has no chunks; text with words has at least one. */
  lemma ChunksOfNoWords(n: nat, step: int, count: nat)
    requires 0 < step
    requires count * step >= n && (count == 0 || (count - 1) * step < n)
    ensures count == 0 <==> n == 0
  {
  }
}
