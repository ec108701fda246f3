/** Path normalisation: both `/` and `\` may be typed as the directory separator. */
module PathNormalizer {
  import opened Strings

  /** Every `/` of `s` turned into `\`. */
  function SlashesToBackslashes(s: string): (r: string)
    ensures |r| == |s|
    ensures forall i :: 0 <= i < |s| ==> r[i] == if s[i] == '/' then '\\' else s[i]
  {
    if s == [] then [] else [if s[0] == '/' then '\\' else s[0]] + SlashesToBackslashes(s[1..])
  }

  /** `PathNormalizer.Normalize`: a blank path (empty or all white space) is returned as it
      is; otherwise every `/` becomes `\` and every other character stays in place. */
  function Normalize(path: string): (r: string)
    ensures |r| == |path|
    ensures IsBlank(path) ==> r == path
    ensures !IsBlank(path) ==> forall i :: 0 <= i < |path| ==> r[i] == if path[i] == '/' then '\\' else path[i]
    ensures !IsBlank(path) ==> '/' !in r
    ensures IsBlank(r) <==> IsBlank(path)
  {
    if IsBlank(path) then path else SlashesToBackslashes(path)
  }

  /** Normalising twice is normalising once. */
  lemma NormalizeIdempotent(path: string)
    ensures Normalize(Normalize(path)) == Normalize(path)
  {
  }
}
