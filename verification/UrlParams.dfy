/**
 delUrlParam: removing a query parameter by parsing the query into an object and printing
 that object as JSON, with the JSON punctuation rewritten to URL punctuation.
 */
module UrlParams {
  import opened Decimals
  import opened Texts

  datatype Value = Undefined | Text(s: string)

  datatype Param = Param(name: string, value: Value)

  // Own properties in the order of their first assignment.
  type PropList = seq<Param>

  // obj[name] = value. A string or undefined assigned to __proto__ leaves no property.
  function Assign(obj: PropList, p: Param): PropList {
    if p.name == "__proto__" then obj
    else if obj == [] then [p]
    else if obj[0].name == p.name then [p] + obj[1..]
    else [obj[0]] + Assign(obj[1..], p)
  }

  // delete obj[key]
  function Without(obj: PropList, key: string): PropList {
    if obj == [] then []
    else if obj[0].name == key then Without(obj[1..], key)
    else [obj[0]] + Without(obj[1..], key)
  }

  // Array-index names: canonical decimals below 2^32 - 1.
  predicate IsIndex(name: string) {
    Canonical(name) && NaturalValue(name) < 0xFFFF_FFFF
  }

  function InsertIndex(p: Param, ps: PropList): PropList {
    if ps == [] || NaturalValue(p.name) <= NaturalValue(ps[0].name) then [p] + ps
    else [ps[0]] + InsertIndex(p, ps[1..])
  }

  // Index names, ascending.
  function Indices(obj: PropList): PropList {
    if obj == [] then []
    else if IsIndex(obj[0].name) then InsertIndex(obj[0], Indices(obj[1..]))
    else Indices(obj[1..])
  }

  function Others(obj: PropList): PropList {
    if obj == [] then []
    else if IsIndex(obj[0].name) then Others(obj[1..])
    else [obj[0]] + Others(obj[1..])
  }

  // The enumeration order of own properties.
  function Enumerate(obj: PropList): PropList {
    Indices(obj) + Others(obj)
  }

  function Hex(d: nat): char
    requires d < 16
  {
    "0123456789abcdef"[d]
  }

  // One character inside a JSON string.
  function EscapeChar(c: char): string {
    if c == '\"' then "\\\""
    else if c == '\\' then "\\\\"
    else if c as int == 8 then "\\b"
    else if c as int == 9 then "\\t"
    else if c as int == 10 then "\\n"
    else if c as int == 12 then "\\f"
    else if c as int == 13 then "\\r"
    else if c < ' ' then "\\u00" + [Hex(c as int / 16), Hex(c as int % 16)]
    else [c]
  }

  function Escape(s: string): string {
    if s == "" then "" else EscapeChar(s[0]) + Escape(s[1..])
  }

  function Quote(s: string): string {
    "\"" + Escape(s) + "\""
  }

  // JSON members; an undefined value is omitted.
  function Members(ps: PropList): seq<string> {
    if ps == [] then []
    else if ps[0].value.Undefined? then Members(ps[1..])
    else [Quote(ps[0].name) + ":" + Quote(ps[0].value.s)] + Members(ps[1..])
  }

  function Stringify(ps: PropList): string {
    "{" + Join(Members(ps), ',') + "}"
  }

  // .replace(/[\"\{\}]/g, '')
  function Strip(s: string): string {
    if s == "" then ""
    else if s[0] in "\"{}" then Strip(s[1..])
    else [s[0]] + Strip(s[1..])
  }

  // .replace(/from/g, to)
  function Swap(s: string, from: char, to: char): string {
    if s == "" then "" else [if s[0] == from then to else s[0]] + Swap(s[1..], from, to)
  }

  function Rewrite(s: string): string {
    Swap(Swap(Strip(s), ':', '='), ',', '&')
  }

  // The object built from the parts of the query: values are what follows the first '='.
  function Collect(obj: PropList, parts: seq<string>): PropList
    decreases parts
  {
    if parts == [] then obj else Collect(Assign(obj, ParsePart(parts[0])), parts[1..])
  }

  function ParsePart(part: string): Param {
    var pair := Split(part, '=');
    Param(pair[0], if |pair| > 1 then Text(pair[1]) else Undefined)
  }

  // What delUrlParam returns.
  function DelParam(url: string, key: string): string {
    if url == "" || '?' !in url then url
    else
      var pieces := Split(url, '?');
      var base, query := pieces[0], if |pieces| > 1 then pieces[1] else "";
      if !Contains(query, key) then url
      else
        var obj := Without(Collect([], Split(query, '&')), key);
        if obj == [] then base else base + "?" + Rewrite(Stringify(Enumerate(obj)))
  }

  // delUrlParam as it runs, filling the object in a loop over the parts.
  method DelUrlParam(url: string, key: string) returns (r: string)
    ensures r == DelParam(url, key)
  {
    if url != "" && '?' in url {
      var pieces := Split(url, '?');
      var baseUrl, query := pieces[0], if |pieces| > 1 then pieces[1] else "";
      if Contains(query, key) {
        var obj: PropList := [];
        var arr := Split(query, '&');
        for i := 0 to |arr|
          invariant Collect(obj, arr[i..]) == Collect([], arr)
        {
          obj := Assign(obj, ParsePart(arr[i]));
        }
        obj := Without(obj, key);
        if |obj| == 0 {
          return baseUrl;
        }
        return baseUrl + "?" + Rewrite(Stringify(Enumerate(obj)));
      }
    }
    return url;
  }
}
