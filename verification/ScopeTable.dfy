/** The implication table auth/scopes.go ships with: acyclic, and made of plain words, so every
    law of Scopes holds of it. */
module ScopeTable {
  import opened Strings
  import opened Scopes

  const ScopeImplies: Table := map[
    "repo" := ["repo:status", "repo_deployment", "public_repo", "repo:invite", "security_events"],
    "admin:org" := ["write:org", "read:org"],
    "write:org" := ["read:org"],
    "user" := ["read:user", "user:email", "user:follow"],
    "admin:repo_hook" := ["write:repo_hook", "read:repo_hook"],
    "write:repo_hook" := ["read:repo_hook"],
    "admin:public_key" := ["write:public_key", "read:public_key"],
    "write:public_key" := ["read:public_key"],
    "admin:gpg_key" := ["write:gpg_key", "read:gpg_key"],
    "write:gpg_key" := ["read:gpg_key"],
    "write:discussion" := ["read:discussion"],
    "write:packages" := ["read:packages"],
    "project" := ["read:project"]]

  const Standalone: set<Scope> := {
    "repo", "workflow", "write:packages", "read:packages", "delete:packages",
    "admin:org", "admin:public_key", "admin:repo_hook", "admin:org_hook",
    "gist", "notifications", "user", "delete_repo", "write:discussion",
    "admin:enterprise", "audit_log", "codespace", "copilot"}

  /** How far a scope's grants can still go down: admin scopes, then write scopes and the plain
      parents (repo, user, project), then leaves. */
  function Rank(s: Scope): nat {
    if s == "" then 0
    else if s[0] == 'a' then 2
    else if s[0] == 'w' || |s| == 4 || |s| == 7 then 1
    else 0
  }

  lemma {:induction false} ChainDescends(t: Table, p: seq<Scope>)
    requires forall a, b :: Edge(t, a, b) ==> Rank(b) < Rank(a)
    requires Chain(t, p)
    ensures Rank(p[|p| - 1]) < Rank(p[0])
  {
    assert Edge(t, p[0], p[1]);
    if |p| > 2 {
      var q := p[1..];
      assert Chain(t, q) by {
        forall i | 0 <= i < |q| - 1 ensures Edge(t, q[i], q[i + 1]) { assert Edge(t, p[i + 1], p[i + 2]); }
      }
      ChainDescends(t, q);
    }
  }

  /** Every grant of the shipped table goes to a lower rank. */
  lemma GrantsDescend(a: Scope, b: Scope)
    requires Edge(ScopeImplies, a, b)
    ensures Rank(b) < Rank(a)
  {
  }

  lemma ShippedTableAcyclic()
    ensures Acyclic(ScopeImplies)
  {
    forall a, b | Edge(ScopeImplies, a, b) ensures Rank(b) < Rank(a) { GrantsDescend(a, b); }
    forall a ensures !Reaches(ScopeImplies, a, a) {
      forall p | Chain(ScopeImplies, p) ensures !(p[0] == a && p[|p| - 1] == a) { ChainDescends(ScopeImplies, p); }
    }
  }

  // The standalone scopes in three parts, so that each is checked on its own.
  const StandaloneA: set<Scope> := {"repo", "workflow", "write:packages", "read:packages", "delete:packages", "gist"}
  const StandaloneB: set<Scope> := {"admin:org", "admin:public_key", "admin:repo_hook", "admin:org_hook", "user", "copilot"}
  const StandaloneC: set<Scope> := {"notifications", "delete_repo", "write:discussion", "admin:enterprise", "audit_log", "codespace"}

  lemma StandaloneAreWordsA(s: Scope)
    requires s in StandaloneA
    ensures IsWord(s, IsDelimiter)
  {
  }

  lemma StandaloneAreWordsB(s: Scope)
    requires s in StandaloneB
    ensures IsWord(s, IsDelimiter)
  {
  }

  lemma StandaloneAreWordsC(s: Scope)
    requires s in StandaloneC
    ensures IsWord(s, IsDelimiter)
  {
  }

  const ParentsA: set<Scope> := {"repo", "admin:org", "write:org", "user", "admin:repo_hook", "write:repo_hook"}
  const ParentsB: set<Scope> := {"admin:public_key", "write:public_key", "admin:gpg_key", "write:gpg_key", "write:discussion", "write:packages", "project"}

  lemma ParentsAreWordsA(s: Scope)
    requires s in ParentsA
    ensures IsWord(s, IsDelimiter)
  {
  }

  lemma ParentsAreWordsB(s: Scope)
    requires s in ParentsB
    ensures IsWord(s, IsDelimiter)
  {
  }

  lemma ParentsAreListed(s: Scope)
    requires s in ScopeImplies
    ensures s in ParentsA || s in ParentsB
  {
  }

  const ChildrenA: set<Scope> := {"repo:status", "repo_deployment", "public_repo", "repo:invite", "security_events", "read:project"}
  const ChildrenB: set<Scope> := {"write:org", "read:org", "read:user", "user:email", "user:follow", "read:discussion", "read:packages"}
  const ChildrenC: set<Scope> := {"write:repo_hook", "read:repo_hook", "write:public_key", "read:public_key", "write:gpg_key", "read:gpg_key"}

  lemma ChildrenAreWordsA(s: Scope)
    requires s in ChildrenA
    ensures IsWord(s, IsDelimiter)
  {
  }

  lemma ChildrenAreWordsB(s: Scope)
    requires s in ChildrenB
    ensures IsWord(s, IsDelimiter)
  {
  }

  lemma ChildrenAreWordsC(s: Scope)
    requires s in ChildrenC
    ensures IsWord(s, IsDelimiter)
  {
  }

  lemma ChildrenAreListed(parent: Scope, s: Scope)
    requires parent in ScopeImplies && s in ScopeImplies[parent]
    ensures s in ChildrenA || s in ChildrenB || s in ChildrenC
  {
  }

  /** No shipped scope name is empty or holds a delimiter. */
  lemma ShippedScopesAreWords(s: Scope)
    requires s in Known(ScopeImplies, Standalone)
    ensures IsWord(s, IsDelimiter)
  {
    if s in ScopeImplies {
      ParentsAreListed(s);
      if s in ParentsA {
        ParentsAreWordsA(s);
      } else {
        ParentsAreWordsB(s);
      }
    } else if s in Standalone {
      assert Standalone == StandaloneA + StandaloneB + StandaloneC;
      if s in StandaloneA {
        StandaloneAreWordsA(s);
      } else if s in StandaloneB {
        StandaloneAreWordsB(s);
      } else {
        StandaloneAreWordsC(s);
      }
    } else {
      var parent :| parent in ScopeImplies && s in ScopeImplies[parent];
      ChildrenAreListed(parent, s);
      if s in ChildrenA {
        ChildrenAreWordsA(s);
      } else if s in ChildrenB {
        ChildrenAreWordsB(s);
      } else {
        ChildrenAreWordsC(s);
      }
    }
  }

  /** NormalizeScopes with the shipped table. */
  method NormalizeShipped(input: seq<Scope>) returns (out: seq<Scope>)
    ensures Normal(ScopeImplies, Standalone, input, out)
  {
    ShippedTableAcyclic();
    out := NormalizeScopes(ScopeImplies, Standalone, input);
  }

  /** With the shipped table a normal form survives its header. */
  lemma ShippedNormalSurvivesHeader(input: seq<Scope>, out: seq<Scope>, again: seq<Scope>)
    requires Normal(ScopeImplies, Standalone, input, out)
    requires Normal(ScopeImplies, Standalone, ParseScopeParam(Header(out)), again)
    ensures ParseScopeParam(Header(out)) == out && again == out
  {
    forall s | s in Known(ScopeImplies, Standalone) ensures IsWord(s, IsDelimiter) { ShippedScopesAreWords(s); }
    NormalSurvivesHeader(ScopeImplies, Standalone, input, out, again);
  }

  /** Administering gives writing and reading, and writing gives reading. */
  predicate Ladder(t: Table, admin: Scope, write: Scope, read: Scope) {
    Edge(t, admin, write) && Edge(t, admin, read) && Edge(t, write, read)
  }

  lemma FourLadders()
    ensures Ladder(ScopeImplies, "admin:org", "write:org", "read:org")
    ensures Ladder(ScopeImplies, "admin:repo_hook", "write:repo_hook", "read:repo_hook")
    ensures Ladder(ScopeImplies, "admin:public_key", "write:public_key", "read:public_key")
    ensures Ladder(ScopeImplies, "admin:gpg_key", "write:gpg_key", "read:gpg_key")
    ensures Edge(ScopeImplies, "write:discussion", "read:discussion") && Edge(ScopeImplies, "write:packages", "read:packages")
  {
  }

  /** What the plain parents give. */
  lemma ParentsGive(s: Scope)
    ensures Edge(ScopeImplies, "repo", s) <==> s in {"repo:status", "repo_deployment", "public_repo", "repo:invite", "security_events"}
    ensures Edge(ScopeImplies, "user", s) <==> s in {"read:user", "user:email", "user:follow"}
    ensures Edge(ScopeImplies, "project", s) <==> s == "read:project"
  {
  }
}
