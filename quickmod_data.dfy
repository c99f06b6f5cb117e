/** The descriptor of a QuickMod and the small vocabulary shared by the
    dependency download task and the descriptor file updater. */
module QuickModData {

  datatype Option<T> = None | Some(value: T)

  /** A locator: the text of a QUrl. */
  type Url = string

  /** QUrl::isValid, abstracted: the empty (default-constructed) URL is the
      only invalid one. */
  predicate IsValidUrl(u: Url) {
    u != ""
  }

  /** QuickMod::Type. */
  datatype ModType = ForgeMod | ForgeCoreMod | ResourcePack | ConfigPack | Group

  /** One entry of QuickMod::references(): the uid of a referenced mod and
      the locator its descriptor is fetched from. */
  datatype Reference = Reference(uid: string, locator: Url)

  /** The fields of a QuickMod descriptor this model reads or writes. */
  datatype QuickMod = QuickMod(
    name: string,
    modId: string,
    websiteUrl: Url,
    description: string,
    stub: bool,
    modType: ModType,
    updateUrl: Url,
    references: seq<Reference>)

  /** No element of `s` occurs twice. */
  predicate NoDups<T(==)>(s: seq<T>) {
    forall i, j :: 0 <= i < j < |s| ==> s[i] != s[j]
  }

  lemma NoDupsAppend<T>(a: seq<T>, b: seq<T>)
    requires NoDups(a) && NoDups(b)
    requires forall x :: x in b ==> x !in a
    ensures NoDups(a + b)
  {
    forall i, j | 0 <= i < j < |a + b|
      ensures (a + b)[i] != (a + b)[j]
    {
      if j >= |a| && i < |a| {
        assert (a + b)[j] == b[j - |a|];
        assert (a + b)[j] in b;
      }
    }
  }

  /** A duplicate-free sequence whose elements all occur in `t` is no longer
      than `t`. */
  lemma {:induction false} LengthBound<T>(s: seq<T>, t: seq<T>)
    requires NoDups(s)
    requires forall x :: x in s ==> x in t
    ensures |s| <= |t|
  {
    if s != [] {
      var x := s[0];
      assert x in t;
      var i :| 0 <= i < |t| && t[i] == x;
      var t' := t[..i] + t[i + 1..];
      forall y | y in s[1..]
        ensures y in t'
      {
        var k :| 0 <= k < |s[1..]| && s[1..][k] == y;
        assert s[k + 1] == y;
        assert y != x;
        assert y in t;
        var m :| 0 <= m < |t| && t[m] == y;
        if m < i {
          assert t'[m] == y;
        } else {
          assert m > i;
          assert t'[m - 1] == y;
        }
      }
      assert NoDups(s[1..]) by {
        forall a, b | 0 <= a < b < |s[1..]|
          ensures s[1..][a] != s[1..][b]
        {
          assert s[1..][a] == s[a + 1] && s[1..][b] == s[b + 1];
        }
      }
      LengthBound(s[1..], t');
    }
  }
}
