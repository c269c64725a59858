/**
 * The dashboard's user table (`static/js/dashboard.js`): `escapeHtml`, the five chained
 * global replacements that make a user name safe to place in a table cell, and
 * `updateUsersTable`, which rebuilds the table body from the fetched user list.
 */
module Dashboard {
  import opened Common

  // ---------------------------------------------------------------- escapeHtml

  /** `s.replace(/c/g, rep)` for a one-character pattern. */
  function ReplaceAll(s: string, c: char, rep: string): (r: string)
    ensures c !in rep ==> c !in r
  {
    if s == [] then [] else (if s[0] == c then rep else [s[0]]) + ReplaceAll(s[1..], c, rep)
  }

  lemma {:induction false} ReplaceAllAppend(a: string, b: string, c: char, rep: string)
    ensures ReplaceAll(a + b, c, rep) == ReplaceAll(a, c, rep) + ReplaceAll(b, c, rep)
  {
    if a == [] {
      assert a + b == b;
    } else {
      assert (a + b)[0] == a[0] && (a + b)[1..] == a[1..] + b;
      ReplaceAllAppend(a[1..], b, c, rep);
      var head := if a[0] == c then rep else [a[0]];
      assert ReplaceAll(a + b, c, rep) == head + (ReplaceAll(a[1..], c, rep) + ReplaceAll(b, c, rep));
    }
  }

  lemma {:induction false} ReplaceAllKeepsAbsent(s: string, c: char, rep: string, x: char)
    requires x !in s && x !in rep
    ensures x !in ReplaceAll(s, c, rep)
  {
    if s != [] {
      ReplaceAllKeepsAbsent(s[1..], c, rep, x);
    }
  }

  lemma ReplaceAllSingle(x: char, c: char, rep: string)
    ensures ReplaceAll([x], c, rep) == if x == c then rep else [x]
  {
    assert [x][1..] == [];
  }

  lemma {:induction false} ReplaceAllAbsent(s: string, c: char, rep: string)
    requires c !in s
    ensures ReplaceAll(s, c, rep) == s
  {
    if s != [] {
      ReplaceAllAbsent(s[1..], c, rep);
      assert s == [s[0]] + s[1..];
    }
  }

  /** `escapeHtml`: `&` first, then `<`, `>`, `"` and `'`, each over the whole string. */
  function EscapeHtml(unsafe: string): string
  {
    ReplaceAll(ReplaceAll(ReplaceAll(ReplaceAll(ReplaceAll(unsafe,
      '&', "&amp;"), '<', "&lt;"), '>', "&gt;"), '"', "&quot;"), '\'', "&#039;")
  }

  /** The entity that one character becomes, or the character itself. */
  function EscapeChar(c: char): string
  {
    if c == '&' then "&amp;"
    else if c == '<' then "&lt;"
    else if c == '>' then "&gt;"
    else if c == '"' then "&quot;"
    else if c == '\'' then "&#039;"
    else [c]
  }

  /** Escaping one character at a time, left to right. */
  function EscapeEach(s: string): (r: string)
    ensures |r| >= |s|
  {
    if s == [] then [] else EscapeChar(s[0]) + EscapeEach(s[1..])
  }

  /** The last replacements leave a string without their characters unchanged. */
  lemma ReplacementsFrom(k: nat, s: string)
    requires 1 <= k <= 4
    requires k <= 1 ==> '<' !in s
    requires k <= 2 ==> '>' !in s
    requires k <= 3 ==> '"' !in s
    requires '\'' !in s
    ensures k == 1 ==> ReplaceAll(ReplaceAll(ReplaceAll(ReplaceAll(s, '<', "&lt;"), '>', "&gt;"), '"', "&quot;"), '\'', "&#039;") == s
    ensures k == 2 ==> ReplaceAll(ReplaceAll(ReplaceAll(s, '>', "&gt;"), '"', "&quot;"), '\'', "&#039;") == s
    ensures k == 3 ==> ReplaceAll(ReplaceAll(s, '"', "&quot;"), '\'', "&#039;") == s
    ensures k == 4 ==> ReplaceAll(s, '\'', "&#039;") == s
  {
    if k <= 1 { ReplaceAllAbsent(s, '<', "&lt;"); }
    if k <= 2 { ReplaceAllAbsent(s, '>', "&gt;"); }
    if k <= 3 { ReplaceAllAbsent(s, '"', "&quot;"); }
    ReplaceAllAbsent(s, '\'', "&#039;");
  }

  lemma EscapeHtmlOfChar(c: char)
    ensures EscapeHtml([c]) == EscapeChar(c)
  {
    ReplaceAllSingle(c, '&', "&amp;");
    if c == '&' {
      ReplacementsFrom(1, "&amp;");
    } else {
      ReplaceAllSingle(c, '<', "&lt;");
      if c == '<' {
        ReplacementsFrom(2, "&lt;");
      } else {
        ReplaceAllSingle(c, '>', "&gt;");
        if c == '>' {
          ReplacementsFrom(3, "&gt;");
        } else {
          ReplaceAllSingle(c, '"', "&quot;");
          if c == '"' {
            ReplacementsFrom(4, "&quot;");
          } else {
            ReplaceAllSingle(c, '\'', "&#039;");
          }
        }
      }
    }
  }

  lemma EscapeHtmlAppend(a: string, b: string)
    ensures EscapeHtml(a + b) == EscapeHtml(a) + EscapeHtml(b)
  {
    var s1 := ReplaceAll(a + b, '&', "&amp;");
    ReplaceAllAppend(a, b, '&', "&amp;");
    var a1, b1 := ReplaceAll(a, '&', "&amp;"), ReplaceAll(b, '&', "&amp;");
    ReplaceAllAppend(a1, b1, '<', "&lt;");
    var a2, b2 := ReplaceAll(a1, '<', "&lt;"), ReplaceAll(b1, '<', "&lt;");
    ReplaceAllAppend(a2, b2, '>', "&gt;");
    var a3, b3 := ReplaceAll(a2, '>', "&gt;"), ReplaceAll(b2, '>', "&gt;");
    ReplaceAllAppend(a3, b3, '"', "&quot;");
    var a4, b4 := ReplaceAll(a3, '"', "&quot;"), ReplaceAll(b3, '"', "&quot;");
    ReplaceAllAppend(a4, b4, '\'', "&#039;");
  }

  /**
   * The chained replacements act on each character independently: because `&` is replaced
   * first, no entity produced by a later replacement is escaped again.
   */
  lemma {:induction false} EscapeHtmlIsPerChar(s: string)
    ensures EscapeHtml(s) == EscapeEach(s)
  {
    if s != [] {
      assert s == [s[0]] + s[1..];
      EscapeHtmlAppend([s[0]], s[1..]);
      EscapeHtmlOfChar(s[0]);
      EscapeHtmlIsPerChar(s[1..]);
    }
  }

  predicate StartsWith(s: string, p: string)
  {
    |p| <= |s| && s[..|p|] == p
  }

  /** Reads the five entities back; any other text is kept. */
  function Unescape(s: string): string
    decreases |s|
  {
    if s == [] then []
    else if StartsWith(s, "&amp;") then "&" + Unescape(s[5..])
    else if StartsWith(s, "&lt;") then "<" + Unescape(s[4..])
    else if StartsWith(s, "&gt;") then ">" + Unescape(s[4..])
    else if StartsWith(s, "&quot;") then "\"" + Unescape(s[6..])
    else if StartsWith(s, "&#039;") then "'" + Unescape(s[6..])
    else [s[0]] + Unescape(s[1..])
  }

  lemma StartsWithAppend(p: string, rest: string)
    ensures StartsWith(p + rest, p) && (p + rest)[|p|..] == rest
  {
    assert (p + rest)[..|p|] == p;
  }

  lemma DiffersAt(s: string, p: string, k: nat)
    requires k < |p| && k < |s| && s[k] != p[k]
    ensures !StartsWith(s, p)
  {
    if |p| <= |s| {
      assert s[..|p|][k] == s[k];
    }
  }

  lemma UnescapeChar(c: char, rest: string)
    ensures Unescape(EscapeChar(c) + rest) == [c] + Unescape(rest)
  {
    var e := EscapeChar(c);
    var s := e + rest;
    StartsWithAppend(e, rest);
    if c == '&' {
    } else if c == '<' {
      DiffersAt(s, "&amp;", 1);
    } else if c == '>' {
      DiffersAt(s, "&amp;", 1);
      DiffersAt(s, "&lt;", 1);
    } else if c == '"' {
      DiffersAt(s, "&amp;", 1);
      DiffersAt(s, "&lt;", 1);
      DiffersAt(s, "&gt;", 1);
    } else if c == '\'' {
      DiffersAt(s, "&amp;", 1);
      DiffersAt(s, "&lt;", 1);
      DiffersAt(s, "&gt;", 1);
      DiffersAt(s, "&quot;", 1);
    } else {
      DiffersAt(s, "&amp;", 0);
      DiffersAt(s, "&lt;", 0);
      DiffersAt(s, "&gt;", 0);
      DiffersAt(s, "&quot;", 0);
      DiffersAt(s, "&#039;", 0);
    }
  }

  /** Escaping loses nothing: the cell text reads back as the original name. */
  lemma {:induction false} UnescapeEscapeHtml(s: string)
    ensures Unescape(EscapeHtml(s)) == s
  {
    EscapeHtmlIsPerChar(s);
    UnescapeEach(s);
  }

  lemma {:induction false} UnescapeEach(s: string)
    ensures Unescape(EscapeEach(s)) == s
  {
    if s != [] {
      UnescapeChar(s[0], EscapeEach(s[1..]));
      UnescapeEach(s[1..]);
      assert s == [s[0]] + s[1..];
    }
  }

  /** Distinct names stay distinct once escaped. */
  lemma EscapeHtmlInjective(a: string, b: string)
    requires EscapeHtml(a) == EscapeHtml(b)
    ensures a == b
  {
    UnescapeEscapeHtml(a);
    UnescapeEscapeHtml(b);
  }

  /** No `<`, `>`, `"` or `'` survives escaping. */
  lemma EscapedHasNoMarkup(s: string)
    ensures '<' !in EscapeHtml(s) && '>' !in EscapeHtml(s) && '"' !in EscapeHtml(s) && '\'' !in EscapeHtml(s)
  {
    var s1 := ReplaceAll(s, '&', "&amp;");
    var s2 := ReplaceAll(s1, '<', "&lt;");
    var s3 := ReplaceAll(s2, '>', "&gt;");
    var s4 := ReplaceAll(s3, '"', "&quot;");
    ReplaceAllKeepsAbsent(s2, '>', "&gt;", '<');
    ReplaceAllKeepsAbsent(s3, '"', "&quot;", '<');
    ReplaceAllKeepsAbsent(s3, '"', "&quot;", '>');
    ReplaceAllKeepsAbsent(s4, '\'', "&#039;", '<');
    ReplaceAllKeepsAbsent(s4, '\'', "&#039;", '>');
    ReplaceAllKeepsAbsent(s4, '\'', "&#039;", '"');
  }

  /** The characters `escapeHtml` rewrites. */
  predicate Special(c: char)
  {
    c == '&' || c == '<' || c == '>' || c == '"' || c == '\''
  }

  lemma {:induction false} EscapeEachGrows(s: string)
    ensures (forall i :: 0 <= i < |s| ==> !Special(s[i])) ==> EscapeEach(s) == s
    ensures (exists i :: 0 <= i < |s| && Special(s[i])) ==> |EscapeEach(s)| > |s| && '&' in EscapeEach(s)
  {
    if s != [] {
      EscapeEachGrows(s[1..]);
      assert forall i :: 1 <= i < |s| ==> s[i] == s[1..][i - 1];
      assert s == [s[0]] + s[1..];
      if Special(s[0]) {
        assert EscapeChar(s[0])[0] == '&';
        assert EscapeEach(s)[0] == '&';
      } else if exists i :: 0 <= i < |s| && Special(s[i]) {
        var i :| 0 <= i < |s| && Special(s[i]);
        assert Special(s[1..][i - 1]);
      }
    }
  }

  /**
   * A name is left as it is exactly when it has none of the five characters; otherwise
   * escaping an escaped name changes it again, so `escapeHtml` is not idempotent.
   */
  lemma EscapeHtmlFixedPoints(s: string)
    ensures EscapeHtml(s) == s <==> forall i :: 0 <= i < |s| ==> !Special(s[i])
    ensures (exists i :: 0 <= i < |s| && Special(s[i])) ==> EscapeHtml(EscapeHtml(s)) != EscapeHtml(s)
  {
    EscapeHtmlIsPerChar(s);
    EscapeEachGrows(s);
    var e := EscapeHtml(s);
    if exists i :: 0 <= i < |s| && Special(s[i]) {
      var k :| 0 <= k < |e| && e[k] == '&';
      assert Special(e[k]);
      EscapeHtmlIsPerChar(e);
      EscapeEachGrows(e);
    }
  }

  // ---------------------------------------------------------------- updateUsersTable

  /** One entry of the user list the dashboard reads from `/get_user_list` or `/search_users`. */
  datatype UserSummary = UserSummary(username: string, latestEmotion: Option<string>, emotionTime: Option<string>)

  /** A table row: a user's cells, or the single "no data" placeholder row. */
  datatype Row =
    | UserRow(name: string, badgeClass: string, emotion: string, time: string)
    | NoDataRow

  const NoRecordText := "暂无记录"
  const NeutralClass := "neutral"

  /** The row built for one user: only the name is escaped. */
  function RowOf(u: UserSummary): Row
  {
    UserRow(EscapeHtml(u.username), OrElse(u.latestEmotion, NeutralClass),
      OrElse(u.latestEmotion, NoRecordText), OrElse(u.emotionTime, NoRecordText))
  }

  function RowsOf(us: seq<UserSummary>): (rows: seq<Row>)
    ensures |rows| == |us|
    ensures forall i :: 0 <= i < |us| ==> rows[i] == RowOf(us[i])
  {
    if us == [] then [] else [RowOf(us[0])] + RowsOf(us[1..])
  }

  /** One more user appends one more row. */
  lemma RowsOfSnoc(us: seq<UserSummary>, i: nat)
    requires i < |us|
    ensures RowsOf(us[..i + 1]) == RowsOf(us[..i]) + [RowOf(us[i])]
  {
    var longer, shorter := RowsOf(us[..i + 1]), RowsOf(us[..i]);
    forall j | 0 <= j < i + 1
      ensures longer[j] == (shorter + [RowOf(us[i])])[j]
    {
      if j < i {
        assert us[..i + 1][j] == us[..i][j];
      }
    }
  }

  /** The rows `updateUsersTable` leaves in the table body. */
  function TableRows(users: Option<seq<UserSummary>>): seq<Row>
  {
    if users.Some? && |users.value| > 0 then RowsOf(users.value) else [NoDataRow]
  }

  /**
   * The table shows one row per user, in order, each naming its user exactly and safely;
   * with no users (a missing list or an empty one) it shows only the placeholder row.
   */
  lemma TableShowsEveryUser(users: Option<seq<UserSummary>>)
    ensures users.None? || users.value == [] ==> TableRows(users) == [NoDataRow]
    ensures users.Some? && users.value != [] ==>
      |TableRows(users)| == |users.value| &&
      forall i :: 0 <= i < |users.value| ==>
        TableRows(users)[i].UserRow? &&
        Unescape(TableRows(users)[i].name) == users.value[i].username &&
        '<' !in TableRows(users)[i].name && '"' !in TableRows(users)[i].name
  {
    if users.Some? && users.value != [] {
      forall i | 0 <= i < |users.value|
        ensures Unescape(TableRows(users)[i].name) == users.value[i].username
        ensures '<' !in TableRows(users)[i].name && '"' !in TableRows(users)[i].name
      {
        UnescapeEscapeHtml(users.value[i].username);
        EscapedHasNoMarkup(users.value[i].username);
      }
    }
  }

  /** The `<tbody id="user-list">` element: its rows. */
  class TableBody {
    var rows: seq<Row>

    constructor ()
      ensures rows == []
    {
      rows := [];
    }
  }

  /**
   * `updateUsersTable`: does nothing when the table body is missing; otherwise clears it and
   * appends the rows for `users`.
   */
  method UpdateUsersTable(tbody: TableBody?, users: Option<seq<UserSummary>>)
    modifies tbody
    ensures tbody != null ==> tbody.rows == TableRows(users)
  {
    if tbody == null {
      return;
    }
    tbody.rows := [];
    if users.Some? && |users.value| > 0 {
      var us := users.value;
      for i := 0 to |us|
        invariant tbody.rows == RowsOf(us[..i])
      {
        RowsOfSnoc(us, i);
        tbody.rows := tbody.rows + [RowOf(us[i])];
      }
      assert us[..|us|] == us;
    } else {
      tbody.rows := [NoDataRow];
    }
  }
}
