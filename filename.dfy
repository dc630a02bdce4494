/**
 * Trial metadata from the structured file name (parse_filename):
 *   Surname_Given(_Given...)_Treadmill_<8 speed/date/time tokens>_Session_Music[.xml]
 */
module FilenameParser {
  import opened Wrappers
  import opened Sequences

  datatype FilenameError =
    | MissingTreadmill   // no token is exactly "Treadmill"
    | TooFewTokens       // fewer than 11 tokens from "Treadmill" on

  datatype TrialMetadata = TrialMetadata(surname: string, givenName: string, session: string, music: string)

  const Marker := "Treadmill"
  /** Offsets of the session token and the music token from the marker token. */
  const SessionOffset: nat := 9
  const MusicOffset: nat := 10
  const NoMusicLabel := "no musica"
  const MusicLabelText := "musica"

  /**
   * ASCII case mapping. Python's full Unicode mappings agree with it for every test made
   * here: the only characters whose lower case is one of '.', 'x', 'm', 'l' are those
   * letters in either ASCII case, and the same holds for upper case 'N' and 'M'.
   */
  function Lower(c: char): char
  {
    if 'A' <= c <= 'Z' then (c as int - 'A' as int + 'a' as int) as char else c
  }

  function Upper(c: char): char
  {
    if 'a' <= c <= 'z' then (c as int - 'a' as int + 'A' as int) as char else c
  }

  /** s.lower().endswith(suffix), for a lower-case suffix. */
  predicate EndsWithIgnoreCase(s: string, suffix: string)
  {
    |suffix| <= |s| && forall k :: 0 <= k < |suffix| ==> Lower(s[|s| - |suffix| + k]) == suffix[k]
  }

  /** s.upper().startswith(prefix), for an upper-case prefix. */
  predicate StartsWithIgnoreCase(s: string, prefix: string)
  {
    |prefix| <= |s| && forall k :: 0 <= k < |prefix| ==> Upper(s[k]) == prefix[k]
  }

  /** The file name without a case-insensitive ".xml" extension. */
  function StripXmlSuffix(name: string): (base: string)
    ensures EndsWithIgnoreCase(name, ".xml") ==> |name| == |base| + 4 && base + name[|base|..] == name
    ensures !EndsWithIgnoreCase(name, ".xml") ==> base == name
  {
    if EndsWithIgnoreCase(name, ".xml") then name[..|name| - 4] else name
  }

  /** Python's s.split(sep) for a one-character separator: never empty, no part holds the separator. */
  function Split(s: string, sep: char): (parts: seq<string>)
    ensures |parts| >= 1
    ensures forall k :: 0 <= k < |parts| ==> sep !in parts[k]
    decreases |s|
  {
    match FirstIndexOf(s, sep)
    case None => [s]
    case Some(i) => [s[..i]] + Split(s[i + 1..], sep)
  }

  /** Python's sep.join(parts). */
  function Join(parts: seq<string>, sep: string): string
    decreases |parts|
  {
    if |parts| == 0 then ""
    else if |parts| == 1 then parts[0]
    else parts[0] + sep + Join(parts[1..], sep)
  }

  /** Joining the parts of a split gives back the string. */
  lemma {:induction false} JoinSplit(s: string, sep: char)
    ensures Join(Split(s, sep), [sep]) == s
    decreases |s|
  {
    match FirstIndexOf(s, sep)
    case None =>
    case Some(i) =>
      var rest := s[i + 1..];
      var parts := Split(rest, sep);
      JoinSplit(rest, sep);
      assert Split(s, sep) == [s[..i]] + parts;
      assert ([s[..i]] + parts)[1..] == parts;
      assert Join([s[..i]] + parts, [sep]) == s[..i] + [sep] + Join(parts, [sep]);
      assert s == s[..i] + [sep] + rest;
  }

  /** Splitting a join of separator-free parts gives back the parts. */
  lemma {:induction false} SplitJoin(parts: seq<string>, sep: char)
    requires |parts| >= 1
    requires forall k :: 0 <= k < |parts| ==> sep !in parts[k]
    ensures Split(Join(parts, [sep]), sep) == parts
    decreases |parts|
  {
    if |parts| > 1 {
      var s := Join(parts, [sep]);
      var rest := Join(parts[1..], [sep]);
      assert s == parts[0] + [sep] + rest;
      assert s[|parts[0]|] == sep && s[..|parts[0]|] == parts[0];
      FirstIndexOfAt(s, sep, |parts[0]|);
      assert s[|parts[0]| + 1..] == rest;
      SplitJoin(parts[1..], sep);
    }
  }

  /** The tokens of a file name: its base name without ".xml", split on '_'. */
  function Tokens(filename: string): (tokens: seq<string>)
    ensures |tokens| >= 1
  {
    Split(StripXmlSuffix(filename), '_')
  }

  /** The part of a token before its first '.', as token.split('.')[0]. */
  function BeforeFirstDot(token: string): (stem: string)
    ensures stem <= token && '.' !in stem
    ensures |stem| < |token| ==> token[|stem|] == '.'
  {
    match FirstIndexOf(token, '.')
    case None => token
    case Some(i) => token[..i]
  }

  /** The music condition: "no musica" for an NM... token, "musica" for an M... token, else the token's stem. */
  function MusicLabel(token: string): string
  {
    var stem := BeforeFirstDot(token);
    if StartsWithIgnoreCase(stem, "NM") then NoMusicLabel
    else if StartsWithIgnoreCase(stem, "M") then MusicLabelText
    else stem
  }

  /** The label is one of the closed tri-state: the two fixed labels or the token's own stem. */
  lemma MusicLabelCases(token: string)
    ensures var stem := BeforeFirstDot(token);
      && (MusicLabel(token) == NoMusicLabel <== |stem| >= 2 && Upper(stem[0]) == 'N' && Upper(stem[1]) == 'M')
      && (MusicLabel(token) == MusicLabelText <== |stem| >= 1 && Upper(stem[0]) == 'M')
      && (MusicLabel(token) == stem <== |stem| == 0 || Upper(stem[0]) !in "NM" ||
                                         (Upper(stem[0]) == 'N' && (|stem| == 1 || Upper(stem[1]) != 'M')))
  {
  }

  /** "NM2" means no music, "M1" music, "XYZ" passes through, and the part after a '.' is dropped first. */
  lemma MusicLabelExamples()
    ensures MusicLabel("NM2") == NoMusicLabel
    ensures MusicLabel("m1") == MusicLabelText
    ensures MusicLabel("XYZ") == "XYZ"
  {
    assert BeforeFirstDot("NM2") == "NM2" by { assert '.' !in "NM2"; }
    assert BeforeFirstDot("m1") == "m1" by { assert '.' !in "m1"; }
    assert BeforeFirstDot("XYZ") == "XYZ" by { assert '.' !in "XYZ"; }
  }

  /** A token starting with neither "NM" nor "M" passes through as its stem: "S1" stays, "T3.M" gives "T3". */
  lemma MusicLabelStemExamples()
    ensures MusicLabel("S1") == "S1"
    ensures MusicLabel("T3.M") == "T3"
  {
    assert BeforeFirstDot("S1") == "S1" by { assert '.' !in "S1"; }
    assert BeforeFirstDot("T3.M") == "T3" by {
      FirstIndexOfAt("T3.M", '.', 2);
      assert "T3.M"[..2] == "T3";
    }
  }

  /** parse_filename: trial metadata, or which of its two checks failed. */
  function ParseFilename(filename: string): Result<TrialMetadata, FilenameError>
  {
    var tokens := Tokens(filename);
    match FirstIndexOf(tokens, Marker)
    case None => Err(MissingTreadmill)
    case Some(idx) =>
      if |tokens| < idx + MusicOffset + 1 then Err(TooFewTokens)
      else
        Ok(TrialMetadata(
          tokens[0],
          if idx <= 1 then "" else Join(tokens[1..idx], " "),
          tokens[idx + SessionOffset],
          MusicLabel(tokens[idx + MusicOffset])))
  }

  /**
   * The two ways a file name is rejected: it has no "Treadmill" token, or fewer than ten
   * tokens follow the first one.
   */
  lemma ParseFilenameErrors(filename: string)
    ensures var tokens := Tokens(filename);
      && (ParseFilename(filename) == Err(MissingTreadmill) <==> Marker !in tokens)
      && (ParseFilename(filename) == Err(TooFewTokens) <==>
            exists idx :: 0 <= idx < |tokens| && tokens[idx] == Marker && Marker !in tokens[..idx] &&
                          |tokens| < idx + MusicOffset + 1)
  {
  }

  /**
   * On success the fields come from fixed places: the surname is the first token, the given
   * name the tokens strictly between it and the first "Treadmill" joined by single spaces,
   * the session the token 9 places after the marker, the music label from the one after that.
   */
  lemma ParseFilenameFields(filename: string, idx: nat)
    requires var tokens := Tokens(filename);
      idx < |tokens| && tokens[idx] == Marker && Marker !in tokens[..idx] && idx + MusicOffset < |tokens|
    ensures var tokens := Tokens(filename);
      ParseFilename(filename) == Ok(TrialMetadata(
        tokens[0],
        if idx <= 1 then "" else Join(tokens[1..idx], " "),
        tokens[idx + SessionOffset],
        MusicLabel(tokens[idx + MusicOffset])))
  {
    var tokens := Tokens(filename);
    FirstIndexOfAt(tokens, Marker, idx);
    assert FirstIndexOf(tokens, Marker) == Some(idx);
    assert !(|tokens| < idx + MusicOffset + 1);
  }

  /**
   * Round trip with the naming convention: a name composed from its fields (no field holding
   * '_', no surname or given name equal to "Treadmill", eight tokens between the marker and
   * the session, any further tokens after the music token) parses back to those fields.
   */
  lemma ComposedFilenameParses(surname: string, given: seq<string>, gap: seq<string>,
                               session: string, music: string, rest: seq<string>, ext: string)
    requires |gap| == SessionOffset - 1
    requires forall t :: t in [surname] + given + gap + [session, music] + rest ==> '_' !in t
    requires Marker !in [surname] + given
    requires |ext| == 4 && EndsWithIgnoreCase(ext, ".xml")
    ensures ParseFilename(Join([surname] + given + [Marker] + gap + [session, music] + rest, "_") + ext) ==
            Ok(TrialMetadata(surname, Join(given, " "), session, MusicLabel(music)))
  {
    var tokens := [surname] + given + [Marker] + gap + [session, music] + rest;
    var base := Join(tokens, "_");
    var name := base + ext;
    assert name[|name| - 4..] == ext;
    assert EndsWithIgnoreCase(name, ".xml");
    assert name[..|name| - 4] == base;
    forall k | 0 <= k < |tokens| ensures '_' !in tokens[k] {
      assert tokens[k] in tokens;
    }
    SplitJoin(tokens, '_');
    assert Tokens(name) == tokens;
    var idx := 1 + |given|;
    assert tokens[..idx] == [surname] + given;
    assert tokens[1..idx] == given;
    assert tokens[idx + SessionOffset] == session;
    assert tokens[idx + MusicOffset] == music;
    ParseFilenameFields(name, idx);
    if idx == 1 {
      assert given == [];
    }
  }

  /**
   * Offsets are counted from the marker token: with "8_km_h" written as three tokens there are
   * nine tokens between "Treadmill" and "S1", so the session is read as "00" and the music
   * label as the passed-through "S1"; the final "M" is ignored.
   */
  lemma ShiftedTokensExample()
    ensures ParseFilename(Join(["Doe", "John", "Treadmill", "8", "km", "h", "01", "01", "2024", "10", "00", "00", "S1", "M"], "_") + ".xml")
            == Ok(TrialMetadata("Doe", "John", "00", "S1"))
  {
    var gap := ["8", "km", "h", "01", "01", "2024", "10", "00"];
    assert ["Doe"] + ["John"] + [Marker] + gap + ["00", "S1"] + ["M"] ==
           ["Doe", "John", "Treadmill", "8", "km", "h", "01", "01", "2024", "10", "00", "00", "S1", "M"];
    assert forall t :: t in ["Doe"] + ["John"] + gap + ["00", "S1"] + ["M"] ==> '_' !in t;
    assert Marker !in ["Doe"] + ["John"];
    assert EndsWithIgnoreCase(".xml", ".xml");
    ComposedFilenameParses("Doe", ["John"], gap, "00", "S1", ["M"], ".xml");
    assert Join(["John"], " ") == "John";
    MusicLabelStemExamples();
  }
}
