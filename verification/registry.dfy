/** The static list of services every probe run checks (lib/services.ts). */
module Registry {

  datatype Service = Service(name: string, url: string, icon: string)

  /** No two entries share a name; names key the per-service card states. */
  predicate NamesDistinct(s: seq<Service>)
  {
    forall i, j :: 0 <= i < j < |s| ==> s[i].name != s[j].name
  }

  /** No two entries probe the same address. */
  predicate UrlsDistinct(s: seq<Service>)
  {
    forall i, j :: 0 <= i < j < |s| ==> s[i].url != s[j].url
  }

  predicate IsHttps(url: string)
  {
    "https://" <= url
  }

  /** The set of registry names. */
  function NameSet(s: seq<Service>): (names: set<string>)
  {
    set i | 0 <= i < |s| :: s[i].name
  }

  /** The registry, in display order. */
  function Services(): (s: seq<Service>)
    ensures |s| == 10
  {
    [ Service("Supabase", "https://supabase.co", "\U{26A1}"),
      Service("Firebase", "https://firebase.googleapis.com", "\U{1F525}"),
      Service("MongoDB Atlas", "https://cloud.mongodb.com", "\U{1F343}"),
      Service("AWS", "https://s3.amazonaws.com", "\U{2601}\U{FE0F}"),
      Service("Neon", "https://neon.tech", "\U{1F418}"),
      Service("PlanetScale", "https://planetscale.com", "\U{1FA90}"),
      Service("Railway", "https://railway.app", "\U{1F682}"),
      Service("Render", "https://render.com", "\U{1F3A8}"),
      Service("Cloudflare", "https://cloudflare.com", "\U{1F310}"),
      Service("GitHub", "https://github.com", "\U{1F419}") ]
  }

  /** Every registry name is told apart from the others by its length and
      first letter, and every address by its length and first letter after
      the scheme; so names and addresses are pairwise distinct, and all
      addresses use the secure scheme. */
  lemma RegistryWellFormed()
    ensures NamesDistinct(Services())
    ensures UrlsDistinct(Services())
    ensures forall i :: 0 <= i < |Services()| ==> IsHttps(Services()[i].url)
  {
    var s := Services();
    var nameKeys := [(8, 'S'), (8, 'F'), (13, 'M'), (3, 'A'), (4, 'N'),
                     (11, 'P'), (7, 'R'), (6, 'R'), (10, 'C'), (6, 'G')];
    var urlKeys := [(19, 's'), (31, 'f'), (25, 'c'), (24, 's'), (17, 'n'),
                    (23, 'p'), (19, 'r'), (18, 'r'), (22, 'c'), (18, 'g')];
    forall i | 0 <= i < 10
      ensures nameKeys[i] == (|s[i].name|, s[i].name[0])
      ensures urlKeys[i] == (|s[i].url|, s[i].url[8])
      ensures IsHttps(s[i].url)
    {
    }
    forall i, j | 0 <= i < j < 10 ensures s[i].name != s[j].name && s[i].url != s[j].url {
      assert nameKeys[i] != nameKeys[j];
      assert urlKeys[i] != urlKeys[j];
    }
  }

  /** There are no more names than entries. */
  lemma {:induction false} NameSetSize(s: seq<Service>)
    ensures |NameSet(s)| <= |s|
    ensures NamesDistinct(s) ==> |NameSet(s)| == |s|
  {
    if |s| > 0 {
      var p := s[..|s| - 1];
      NameSetSize(p);
      assert NameSet(s) == NameSet(p) + {s[|s| - 1].name} by {
        forall n | n in NameSet(s) ensures n in NameSet(p) + {s[|s| - 1].name} {
          var i :| 0 <= i < |s| && s[i].name == n;
          if i < |s| - 1 { assert p[i] == s[i]; }
        }
        forall n | n in NameSet(p) ensures n in NameSet(s) {
          var i :| 0 <= i < |p| && p[i].name == n;
          assert s[i] == p[i];
        }
      }
      if NamesDistinct(s) {
        assert NamesDistinct(p);
      }
    }
  }
}
