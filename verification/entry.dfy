/** `_generate_json_entry`: the suggested `collection.json` entry for a repository. */
module Entries {
  import opened Text
  import opened Repos

  datatype JsonEntry = JsonEntry(
    url: string,
    name: string,
    description: string,
    language: string,
    technologies: seq<string>,
    collection: seq<string>
  )

  /** `technologies[:10]`. */
  const MaxTechnologies: nat := 10

  /** `'docker' in [t.lower() for t in technologies]`. */
  predicate HasDockerTag(technologies: seq<string>) {
    exists t | t in technologies :: Lower(t) == "docker"
  }

  /** The first `n` elements of `s`, or all of them when there are fewer (`s[:n]`). */
  function Take<T>(s: seq<T>, n: nat): (r: seq<T>)
    ensures |r| == if |s| < n then |s| else n
    ensures r <= s
  {
    if |s| <= n then s else s[..n]
  }

  /** A Docker file exists and no topic already says "docker". */
  predicate AddsDocker(r: Repo) {
    (r.hasDockerfile || r.hasDockerCompose) && !HasDockerTag(r.topics)
  }

  /** The entry as a value: the topics, then "Docker" at most once, at most ten in all. */
  function SuggestedEntry(r: Repo): JsonEntry {
    JsonEntry(
      r.htmlUrl,
      r.name,
      if |r.description| > 0 then r.description else "Vulnerable web application - " + r.name,
      if |r.language| > 0 then r.language else "Unknown",
      Take(r.topics + (if AddsDocker(r) then ["Docker"] else []), MaxTechnologies),
      ["offline"])
  }

  /**
   * The source's steps: copy the topics, append "Docker" after the
   * Dockerfile check and again after the docker-compose.yml check, each
   * time only if no element lower-cases to "docker", then cut to ten.
   */
  method GenerateJsonEntry(r: Repo) returns (e: JsonEntry)
    ensures e == SuggestedEntry(r)
    ensures e.collection == ["offline"]
    ensures e.language == if |r.language| == 0 then "Unknown" else r.language
    ensures |e.technologies| <= MaxTechnologies
    ensures e.technologies <= r.topics + ["Docker"]
    ensures |r.topics| < MaxTechnologies ==>
      e.technologies == r.topics + (if AddsDocker(r) then ["Docker"] else [])
  {
    var language := if |r.language| > 0 then r.language else "Unknown";
    var technologies := r.topics;
    var collectionType := ["offline"];
    assert Lower("Docker") == "docker";
    if r.hasDockerfile {
      if !HasDockerTag(technologies) {
        technologies := technologies + ["Docker"];
        assert "Docker" in technologies;
      }
    }
    if r.hasDockerCompose {
      if !HasDockerTag(technologies) {
        technologies := technologies + ["Docker"];
      }
    }
    assert technologies == r.topics + (if AddsDocker(r) then ["Docker"] else []);
    e := JsonEntry(
      r.htmlUrl,
      r.name,
      if |r.description| > 0 then r.description else "Vulnerable web application - " + r.name,
      language,
      Take(technologies, MaxTechnologies),
      collectionType);
  }
}
