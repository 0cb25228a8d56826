/**
 * The Coinbase proof service (go/libkb/proof_support_coinbase.go): the
 * username check a proof's remote name must pass, the profile URL a proof
 * lives at, the check of the server's hint against that URL, and the
 * service's fixed answers.
 *
 * Strings are sequences of Unicode code points (Go's regexp matches runes).
 * strings.ToLower is modelled on ASCII letters only.
 */
module Coinbase {
  import opened Wrappers

  /** The errors the checks return. */
  datatype CoinbaseError =
    | BadUsernameError(name: string)
    /** A ProofError with status BAD_API_URL: the URL wanted and the hint's URL. */
    | BadApiUrl(wanted: string, got: string)

  /**
   * A character the class `(?i:[a-z0-9_])` matches. Go's case folding maps
   * each letter to its whole simple-fold orbit: besides A-Z this adds
   * U+017F (long s, which folds to s) and U+212A (Kelvin sign, which folds
   * to k).
   */
  predicate UsernameChar(c: char) {
    || 'a' <= c <= 'z'
    || 'A' <= c <= 'Z'
    || '0' <= c <= '9'
    || c == '_'
    || c == '\U{017F}'
    || c == '\U{212A}'
  }

  /** A run of 2 to 16 username characters: `(?i:[a-z0-9_]{2,16})`. */
  predicate NameBody(t: string) {
    2 <= |t| <= 16 && forall i :: 0 <= i < |t| ==> UsernameChar(t[i])
  }

  /** The language of `^@?(?i:[a-z0-9_]{2,16})$`, by its two alternatives. */
  predicate MatchesUsernamePattern(s: string) {
    NameBody(s) || (|s| >= 1 && s[0] == '@' && NameBody(s[1..]))
  }

  /** CheckUsername: strip one optional '@' and check what is left. */
  function CheckUsername(s: string): (err: Option<CoinbaseError>)
    ensures err.None? <==> MatchesUsernamePattern(s)
    ensures err.Some? ==> err.value == BadUsernameError(s)
  {
    var body := if |s| > 0 && s[0] == '@' then s[1..] else s;
    if 2 <= |body| <= 16 && forall i :: 0 <= i < |body| ==> UsernameChar(body[i]) then None
    else Some(BadUsernameError(s))
  }

  /**
   * The pattern's bounds: an accepted name is 2 to 17 characters long, and
   * has at most one '@', at its start.
   */
  lemma AcceptedShape(s: string)
    requires CheckUsername(s).None?
    ensures 2 <= |s| <= 17
    ensures forall i :: 0 < i < |s| ==> s[i] != '@'
  {
  }

  /** The two case-folded letters the pattern accepts besides ASCII. */
  lemma FoldedLettersAccepted()
    ensures CheckUsername("\U{212A}\U{017F}").None?
    ensures CheckUsername("@ab").None? && CheckUsername("AB_9").None?
    ensures CheckUsername("a").Some? && CheckUsername("@@ab").Some? && CheckUsername("ab-c").Some?
    ensures CheckUsername("abcdefghijklmnopq").Some?
  {
    assert "@@ab"[1..][0] == '@' && !UsernameChar('@');
    assert !UsernameChar('-');
    assert "ab-c"[2] == '-';
  }

  const ProfilePrefix: string := "https://coinbase.com/"
  const ProfileSuffix: string := "/public-key"

  /** ProfileURL: where the proof of the remote username is published. */
  function ProfileURL(remoteUsername: string): (url: string)
  {
    ProfilePrefix + remoteUsername + ProfileSuffix
  }

  /** The username back from a profile URL. */
  function UsernameOfProfileURL(url: string): (name: Option<string>)
    ensures name.Some? ==> ProfileURL(name.value) == url
  {
    if |url| >= |ProfilePrefix| + |ProfileSuffix|
       && url[..|ProfilePrefix|] == ProfilePrefix
       && url[|url| - |ProfileSuffix|..] == ProfileSuffix
    then
      var name := url[|ProfilePrefix|..|url| - |ProfileSuffix|];
      assert ProfileURL(name) == url by {
        assert url == url[..|ProfilePrefix|] + name + url[|url| - |ProfileSuffix|..];
      }
      Some(name)
    else None
  }

  /** Distinct usernames have distinct profile URLs: the URL gives the name back. */
  lemma ProfileURLRoundTrip(remoteUsername: string)
    ensures UsernameOfProfileURL(ProfileURL(remoteUsername)) == Some(remoteUsername)
  {
    var url := ProfileURL(remoteUsername);
    assert url[..|ProfilePrefix|] == ProfilePrefix;
    assert url[|url| - |ProfileSuffix|..] == ProfileSuffix;
    assert url[|ProfilePrefix|..|url| - |ProfileSuffix|] == remoteUsername;
  }

  /** ASCII lower-casing of one character. */
  function LowerChar(c: char): (l: char)
    ensures 'A' <= c <= 'Z' ==> l as int == c as int + 32
    ensures !('A' <= c <= 'Z') ==> l == c
  {
    if 'A' <= c <= 'Z' then (c as int + 32) as char else c
  }

  /** strings.ToLower, on ASCII letters. */
  function ToLower(s: string): (t: string)
    ensures |t| == |s| && forall i :: 0 <= i < |s| ==> t[i] == LowerChar(s[i])
  {
    seq(|s|, i requires 0 <= i < |s| => LowerChar(s[i]))
  }

  /** Lower-casing twice is lower-casing once. */
  lemma ToLowerIdempotent(s: string)
    ensures ToLower(ToLower(s)) == ToLower(s)
  {
  }

  /** CheckHint: the hint's URL must be the profile URL up to letter case. */
  function CheckHint(remoteUsername: string, hintURL: string): (err: Option<CoinbaseError>)
    ensures err.None? <==> ToLower(ProfileURL(remoteUsername)) == ToLower(hintURL)
    ensures err.Some? ==> err.value == BadApiUrl(ProfileURL(remoteUsername), hintURL)
  {
    var wanted := ProfileURL(remoteUsername);
    if ToLower(wanted) == ToLower(hintURL) then None
    else Some(BadApiUrl(wanted, hintURL))
  }

  /**
   * A hint is accepted for the exact profile URL and for any re-casing of
   * it; a hint for another name is rejected when the names differ beyond
   * letter case.
   */
  lemma CheckHintCases(remoteUsername: string, other: string)
    ensures CheckHint(remoteUsername, ProfileURL(remoteUsername)).None?
    ensures CheckHint(remoteUsername, ToLower(ProfileURL(remoteUsername))).None?
    ensures ToLower(other) != ToLower(remoteUsername) ==> CheckHint(remoteUsername, ProfileURL(other)).Some?
  {
    ToLowerIdempotent(ProfileURL(remoteUsername));
    if ToLower(other) != ToLower(remoteUsername) && ToLower(ProfileURL(remoteUsername)) == ToLower(ProfileURL(other)) {
      LowerConcat(remoteUsername, other);
    }
  }

  /** Lower-cased profile URLs are equal only when the lower-cased names are. */
  lemma LowerConcat(a: string, b: string)
    requires ToLower(ProfileURL(a)) == ToLower(ProfileURL(b))
    ensures ToLower(a) == ToLower(b)
  {
    var ua, ub := ProfileURL(a), ProfileURL(b);
    assert |a| == |b|;
    forall i | 0 <= i < |a|
      ensures ToLower(a)[i] == ToLower(b)[i]
    {
      assert ua[|ProfilePrefix| + i] == a[i];
      assert ub[|ProfilePrefix| + i] == b[i];
      assert ToLower(ua)[|ProfilePrefix| + i] == ToLower(ub)[|ProfilePrefix| + i];
    }
  }

  /** GetTorError: the service works over Tor. */
  function GetTorError(): (err: Option<CoinbaseError>)
    ensures err.None?
  {
    None
  }

  /** DisplayName: the same for every username. */
  function DisplayName(un: string): (name: string)
    ensures name == "Coinbase"
  {
    "Coinbase"
  }

  /** GetTypeName: the service's key in proof types. */
  function GetTypeName(): (name: string)
    ensures name == "coinbase"
  {
    "coinbase"
  }

  const PostIntro: string := "Please update your Coinbase profile to show this proof.\nClick here: "

  /** PostInstructions: the text telling the user where to post the proof. */
  function PostInstructions(un: string): (text: string)
  {
    PostIntro + "https://coinbase.com/" + un + "/public-key"
  }

  /**
   * The instructions end with the very URL the checker expects for that
   * username, so a hint pointing where the user was told to post is
   * accepted.
   */
  lemma PostInstructionsPointToProfile(un: string)
    ensures PostInstructions(un) == PostIntro + ProfileURL(un)
    ensures var text := PostInstructions(un);
            CheckHint(un, text[|PostIntro|..]).None?
  {
    var text := PostInstructions(un);
    assert text == PostIntro + ProfileURL(un);
    assert text[|PostIntro|..] == ProfileURL(un);
  }
}
