/** Worked examples of the conversion: grouping order, a declared header, the project name. */
module Scenarios {
  import opened Wrappers
  import opened Text
  import opened Headers
  import opened UrlTemplate
  import opened ApiDoc
  import opened Endpoint
  import opened Collection

  /**
   * Descriptors `[a1, u1, a2]`, where `a1` and `a2` share a group and `u1`
   * is in another, give `a1`'s folder first, then `u1`'s, and the first
   * holds `a1`, `a2` in that order.
   */
  lemma GroupOrder(a1: Descriptor, u1: Descriptor, a2: Descriptor)
    requires a1.group == a2.group && a1.group != u1.group
    ensures GroupKeys([a1, u1, a2]) == [a1.group, u1.group]
    ensures Members([a1, u1, a2], a1.group) == [a1, a2]
    ensures Members([a1, u1, a2], u1.group) == [u1]
  {
    var a := a1.group;
    var u := u1.group;
    var d1 := [a1];
    var d2 := [a1, u1];
    var ds := [a1, u1, a2];
    assert d1[..0] == [] && d2[..1] == d1 && ds[..2] == d2;
    assert GroupKeys(d1) == [a];
    assert GroupKeys(d2) == [a, u];
    assert Members(d1, a) == [a1] && Members(d1, u) == [];
    assert Members(d2, a) == [a1] && Members(d2, u) == [u1];
  }

  /**
   * Declaring `X-Token: abc_123` appends `X-Token: abc 123` after the two
   * defaults, which stay at positions 0 and 1.
   */
  lemma TokenHeader(f: HeaderField)
    requires f.field == "X-Token" && f.defaultValue == "abc_123"
    ensures Synthesized(Some([f])) ==
      [Header("Content-Type", "application/json"), Header("Accept", "application/json"),
       Header("X-Token", "abc 123")]
  {
    UnescapeToken(f.defaultValue, "abc", "123", "abc 123");
    assert !HasKey(Defaults(), f.field) by {
      assert "Content-Type"[0] != f.field[0];
      assert "Accept"[0] != f.field[0];
    }
    assert [f][1..] == [];
    assert MergeAll(Defaults(), [f]) == MergeAll(Merge(Defaults(), f), []);
  }

  /** `abc_123` is stored as `abc 123`. */
  lemma UnescapeToken(v: string, a: string, b: string, w: string)
    requires a == "abc" && b == "123" && v == a + "_" + b && w == a + " " + b
    ensures Unescape(v) == w
  {
    assert '_' !in a;
    UnescapeFirst(a, b);
  }

  /** A project with a name and no title is called by its name. */
  lemma UntitledProject()
    ensures InfoOf(Project(None, Some("MyAPI"))).name == Some("MyAPI")
    ensures InfoOf(Project(Some(""), Some("MyAPI"))).name == Some("MyAPI")
    ensures InfoOf(Project(Some("Shop"), Some("MyAPI"))).name == Some("Shop")
  {
  }

  /** `/users/:id` is rewritten to `/users/{id}`. */
  lemma UsersByIdUrl(url: string, lead: string, n: string, braced: string)
    requires lead == "/users/" && n == "id"
    requires url == lead + (":" + n) && braced == lead + ("{" + n + "}")
    ensures Braced(Parse(url)) == braced
  {
    assert Plain(lead);
    assert IsName(n);
    ParseLeadParam(lead, n);
    var h := Hole(n, "");
    assert [h][1..] == [];
    assert BracedOf([h]) == "{" + n + "}" + "" + BracedOf([]);
  }

  /** `/users/{id}` splits into `""`, `users` and `{id}`. */
  lemma UsersByIdPath(url: string)
    requires url == "/users/{id}"
    ensures UrlOf(url).path == ["", "users", "{id}"]
  {
    var parts := ["", "users", "{id}"];
    assert Join(parts[2..], "/") == "{id}";
    assert Join(parts[1..], "/") == "users" + "/" + "{id}";
    assert Join(parts, "/") == "" + "/" + ("users" + "/" + "{id}");
    assert forall i :: 0 <= i < |parts| ==> '/' !in parts[i];
    UrlPathDetermined(url, parts);
  }

  /**
   * `GET /users/:id`: the method is `GET`, the parameter becomes `{id}`,
   * `raw` is `http://{{host}}/users/{id}` and the path is `["", "users", "{id}"]`.
   */
  lemma UsersById(d: Descriptor, table: Table)
    requires Convertible(d) && d.url == "/users/:id" && d.verb == "get"
    ensures var r := EntryOf(d, table).request;
      r.httpMethod == "GET" &&
      r.url.raw == "http://{{host}}/users/{id}" &&
      r.url.path == ["", "users", "{id}"]
  {
    var url := Braced(Parse(d.url));
    UsersByIdUrl(d.url, "/users/", "id", "/users/{id}");
    UsersByIdPath(url);
    UpperGet(d.verb);
    UsersByIdRaw(url);
    var r := EntryOf(d, table).request;
    assert r.url == UrlOf(url) && r.httpMethod == Upper(d.verb);
  }

  lemma UsersByIdRaw(url: string)
    requires url == "/users/{id}"
    ensures UrlOf(url).raw == "http://{{host}}/users/{id}"
  {
  }

  lemma UpperGet(verb: string)
    requires verb == "get"
    ensures Upper(verb) == "GET"
  {
    assert verb[1..][1..][1..] == [];
  }
}
