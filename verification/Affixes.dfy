/** Taking a known beginning or end off a text. */
module Affixes {
  import opened Wrappers

  function StripPrefix(s: string, p: string): (r: Option<string>)
    ensures r.Some? <==> p <= s
    ensures r.Some? ==> s == p + r.value
  {
    if p <= s then Some(s[|p|..]) else None
  }

  function StripSuffix(s: string, p: string): (r: Option<string>)
    ensures r.Some? <==> |p| <= |s| && s[|s| - |p|..] == p
    ensures r.Some? ==> s == r.value + p
  {
    if |p| <= |s| && s[|s| - |p|..] == p then Some(s[..|s| - |p|]) else None
  }

  lemma StripsBack(p: string, s: string)
    ensures StripPrefix(p + s, p) == Some(s) && StripSuffix(s + p, p) == Some(s)
  {
  }
}
