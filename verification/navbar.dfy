/** The avatar initials of the navigation bar (`getUserInitials` in
    frontend/src/components/Navbar.tsx), as written and as evidently intended. */
module Navbar {
  import opened Wrappers
  import opened Text
  import opened Seqs
  import opened AuthContext

  /** The user has a truthy name: signed in, with a name that is not the empty string. */
  predicate HasName(user: Option<User>) {
    user.Some? && user.value.name.Some? && user.value.name.value != ""
  }

  /** `${w[0]}`: the first character of a word. Indexing an empty string gives
      `undefined`, which a template literal renders as the text "undefined". */
  function FirstCharText(w: string): (r: string)
    ensures |w| > 0 ==> r == [w[0]]
    ensures |w| == 0 ==> r == "undefined"
  {
    if |w| > 0 then [w[0]] else "undefined"
  }

  /** `getUserInitials` as written: "U" without a name; otherwise the name is split on
      single spaces and the first characters of the first two pieces are joined, or the
      first character of the only piece is returned. */
  function GetUserInitials(user: Option<User>): string {
    if !HasName(user) then "U"
    else
      var parts := Split(user.value.name.value, ' ');
      if |parts| >= 2 then FirstCharText(parts[0]) + FirstCharText(parts[1])
      else [parts[0][0]]
  }

  /** Signed out, or signed in without a name (a login never records one), the badge
      shows "U". */
  lemma NoNameInitials(user: Option<User>)
    requires user.None? || user.value.name.None? || user.value.name == Some("")
    ensures GetUserInitials(user) == "U"
  {
  }

  /** A name without spaces gives its first character. */
  lemma InitialsOfOneWord(email: string, w: string)
    requires w != "" && ' ' !in w
    ensures GetUserInitials(Some(User(email, Some(w)))) == [w[0]]
  {
    SplitNoSeparator(w, ' ');
  }

  /** A name of two words gives their first characters; anything after a further space
      is ignored. */
  lemma InitialsOfTwoWords(email: string, a: string, b: string, rest: Option<string>)
    requires a != "" && b != "" && ' ' !in a && ' ' !in b
    ensures var name := a + [' '] + b + (if rest.Some? then [' '] + rest.value else "");
      GetUserInitials(Some(User(email, Some(name)))) == [a[0], b[0]]
  {
    var tail := if rest.Some? then [' '] + rest.value else "";
    var name := a + [' '] + b + tail;
    assert name == a + [' '] + (b + tail);
    SplitAtSeparator(a, b + tail, ' ');
    if rest.Some? {
      assert b + tail == b + [' '] + rest.value;
      SplitAtSeparator(b, rest.value, ' ');
    } else {
      assert b + tail == b;
      SplitNoSeparator(b, ' ');
    }
  }

  /** With a truthy name the result is at most two characters exactly when the first two
      pieces of the name are not empty; a leading space or two spaces in a row produce
      the text "undefined". */
  lemma InitialsLength(user: Option<User>)
    requires HasName(user)
    ensures var parts := Split(user.value.name.value, ' ');
      |GetUserInitials(user)| <= 2 <==> (|parts| == 1 || (parts[0] != "" && parts[1] != ""))
  {
  }

  /** " Bob" splits into "" and "Bob", so the initials come out as "undefinedB". */
  lemma LeadingSpaceInitials(email: string)
    ensures GetUserInitials(Some(User(email, Some(" Bob")))) == "undefinedB"
    ensures CorrectedInitials(Some(User(email, Some(" Bob")))) == "B"
  {
    assert " Bob" == "" + [' '] + "Bob";
    SplitAtSeparator("", "Bob", ' ');
    SplitNoSeparator("Bob", ' ');
    var words := Filter(Split(" Bob", ' '), NonEmpty);
    assert Split(" Bob", ' ') == ["", "Bob"];
    assert words == ["Bob"];
  }

  // ---------------------------------------------------------------- corrected

  function IsSpaceChar(c: char): bool {
    c == ' '
  }

  function NonEmpty(w: string): bool {
    w != ""
  }

  /** Every character of a piece of a split occurs in the split string. */
  lemma {:induction false} SplitCharsFrom(s: string, sep: char)
    ensures forall i, j :: 0 <= i < |Split(s, sep)| && 0 <= j < |Split(s, sep)[i]| ==>
              Split(s, sep)[i][j] in s
    decreases |s|
  {
    if |s| > 0 {
      SplitCharsFrom(s[1..], sep);
      var rest := Split(s[1..], sep);
      var r := Split(s, sep);
      forall i, j | 0 <= i < |r| && 0 <= j < |r[i]| ensures r[i][j] in s {
        if s[0] == sep {
          assert r[i] == ([""] + rest)[i];
          if i > 0 {
            assert r[i] == rest[i - 1];
            assert r[i][j] in s[1..];
          }
        } else if i == 0 {
          assert r[0] == [s[0]] + rest[0];
          if j > 0 {
            assert r[0][j] == rest[0][j - 1];
            assert r[0][j] in s[1..];
          }
        } else {
          assert r[i] == rest[i];
          assert r[i][j] in s[1..];
        }
      }
    }
  }

  /** The initials evidently intended: the first characters of the first two non-empty
      words, the only word's first character, or "U" when there is no word at all. */
  function CorrectedInitials(user: Option<User>): (r: string)
    ensures 1 <= |r| <= 2
    ensures !HasName(user) ==> r == "U"
    ensures HasName(user) && IsBlank(user.value.name.value, IsSpaceChar) ==> r == "U"
    ensures HasName(user) && r != "U" ==>
              forall i :: 0 <= i < |r| ==> r[i] in user.value.name.value && r[i] != ' '
  {
    if !HasName(user) then "U"
    else
      var name := user.value.name.value;
      var parts := Split(name, ' ');
      var words := Filter(parts, NonEmpty);
      SplitCharsFrom(name, ' ');
      assert forall k :: 0 <= k < |words| ==> words[k][0] in name && words[k][0] != ' ' by {
        forall k | 0 <= k < |words| ensures words[k][0] in name && words[k][0] != ' ' {
          assert words[k] in parts;
          var i :| 0 <= i < |parts| && parts[i] == words[k];
          assert parts[i][0] in name;
        }
      }
      if |words| == 0 then "U"
      else if |words| == 1 then [words[0][0]]
      else [words[0][0], words[1][0]]
  }

  /** Where no piece of the name is empty (no leading, trailing or doubled spaces) the
      code as written already gives the intended initials. */
  lemma CorrectedAgreesOnWellSpacedNames(user: Option<User>)
    requires HasName(user)
    requires forall i :: 0 <= i < |Split(user.value.name.value, ' ')| ==>
               Split(user.value.name.value, ' ')[i] != ""
    ensures GetUserInitials(user) == CorrectedInitials(user)
  {
    var parts := Split(user.value.name.value, ' ');
    FilterKeepsAll(parts, NonEmpty);
  }
}
