# api-pattern: a Dafny model of the base HTTP client and its Hash helpers

`api-pattern` is a Ruby gem that serves as a base class for HTTP API clients.
A `Client` holds a token, a base path and a port. Its two send methods:

- build a URL of the form `base_path/path?key=value&…`;
- attach a JSON content type, plus a `Token` header on the authorised path;
- hand the request to HTTParty;
- decode the reply's body, unwrapping the entry named after the request path when it is truthy;
- wrap the result in an envelope `{body, headers, metadata}` whose metadata records the start time, the end time and the time taken.

The gem also reopens `Hash`, `String` and `NilClass`:

- `with_indifferent_access!` rewrites every key of a Hash to its string form, in place and recursively;
- `with_indifferent_access` does the same on a shallow copy;
- `blank?` and `present?` are defined on the three classes.

The model has five modules:

- `Wrappers` (`wrappers.dfy`): `Option` and `Result`.
- `RubyValues` (`ruby_values.dfy`): the Ruby values the core handles.
  - A Hash is an association list of entries with distinct keys, in insertion order. Keys are Strings or Symbols.
  - `Lookup`, `Remove` and `Store` give `hash[k]`, `delete` and `[]=`. `Store` replaces in place or appends.
  - `AsMap` is the map view used to state properties that do not depend on order.
- `ClassHelpers` (`class_helpers.dfy`): the key normalisation, `blank?` and `present?`.
  - The functions `Indifferent`, `NormalizeEntries`, `ResolveAll` and `ResolveEntries` specify the normalisation.
  - The class `RubyHash` carries the in-place operations as methods proved against those functions. `with_indifferent_access!` is a loop over a snapshot of the keys.
- `Strings` (`strings.dfy`): `Join`, `Split` and `Count`, used to read the query string and the URL back.
- `ApiPattern` (`client.dfy`): the `Client` class and lemmas about the URLs it builds and the bodies it decodes.

`Client` holds one `token` and no other credentials. It always sends `Content-Type: application/json`, builds every URL from `base_path`, and hands the payload to the transport as given.

The query string is built without any escaping: this is what `process_params` does. `ApiPattern.QueryIsNotEscaped` shows that a value holding `&` and `=` produces the same query as two separate parameters, for all keys and values.

## Model

| member | source | states |
|---|---|---|
| RubyValues.RemoveAsMap | lib/api-pattern/class_helpers.rb:27-29 | `delete(key)` removes exactly that key from the map view and keeps the keys distinct |
| RubyValues.StoreAsMap | lib/api-pattern/class_helpers.rb:27-29 | `self[k] = v` sets exactly `k` to `v` in the map view and keeps the keys distinct |
| ClassHelpers.ResolveAsMap | lib/api-pattern/class_helpers.rb:25-31 | resolving `key` removes `key` and stores its value, normalised, under `key.to_s`; nil when the key was absent |
| ClassHelpers.ResolveKeepsWellFormed | lib/api-pattern/class_helpers.rb:25-31 | resolving a key keeps every nested Hash's keys distinct |
| ClassHelpers.RubyHash.Resolve | lib/api-pattern/class_helpers.rb:25-31 | the private `resolve` updates the receiver in place: the new entries are the delete-then-store result, with the map effect above |
| ClassHelpers.RubyHash.WithIndifferentAccessBang | lib/api-pattern/class_helpers.rb:9-13 | the loop over the key snapshot leaves the receiver normalised (all keys Strings, recursively) and returns the receiver itself |
| ClassHelpers.RubyHash.WithIndifferentAccess | lib/api-pattern/class_helpers.rb:5-7 | a fresh copy is normalised and the receiver's own entries are left as they were |
| ClassHelpers.IndifferentIsNormal | lib/api-pattern/class_helpers.rb:9-13 | after normalisation every key at every depth is a String |
| ClassHelpers.NormalIsFixed | lib/api-pattern/class_helpers.rb:25-31 | a Hash already keyed by Strings comes back identical, key order included |
| ClassHelpers.IndifferentIdempotent | lib/api-pattern/class_helpers.rb:9-13 | normalising twice gives what normalising once gives |
| ClassHelpers.NormalizedKeysAndValues | lib/api-pattern/class_helpers.rb:9-13 | the new keys are exactly the `to_s` images of the old keys; each value is the normalised value of the surviving original key |
| ClassHelpers.NormalizedKeyCount | lib/api-pattern/class_helpers.rb:10 | the number of keys afterwards is the number of distinct `to_s` images of the keys before |
| ClassHelpers.SymbolSpellingWins | lib/api-pattern/class_helpers.rb:25-30 | when both `"s"` and `:s` are keys, `"s"` ends up holding the value of `:s`, and `:s` is gone |
| ClassHelpers.SpellingKeepsValue | lib/api-pattern/class_helpers.rb:26-30 | a key with no other spelling keeps its value under `key.to_s`; a non-Hash value is kept unchanged |
| ClassHelpers.Blank | lib/api-pattern/class_helpers.rb:19-51 | `blank?` holds exactly for nil, `""` and `{}`; it is defined only on Hash, String and nil, and other receivers raise NoMethodError |
| ClassHelpers.Present | lib/api-pattern/class_helpers.rb:15-47 | `present?` is the negation of `blank?`: it holds exactly for a non-empty String or a non-empty Hash |
| ApiPattern.Client.constructor | lib/api-pattern/client.rb:5-9 | the token, base path and port are stored as given |
| ApiPattern.Client.CompatibleApiVersion | lib/api-pattern/client.rb:11-13 | always raises NotImplementedError |
| ApiPattern.Client.ApiVersion | lib/api-pattern/client.rb:16-18 | always raises NotImplementedError |
| ApiPattern.Client.ProcessParams | lib/api-pattern/client.rb:106-108 | the query is empty exactly when there are no parameters |
| ApiPattern.QueryRoundTrip | lib/api-pattern/client.rb:106-108 | splitting the query at `&` gives back one `key=value` segment per parameter, in order, when keys and values hold no `&`; n parameters give n-1 separators |
| ApiPattern.QueryIsNotEscaped | lib/api-pattern/client.rb:107 | for all keys `k1`, `k2` and values `a`, `b`: the value `a&k2=b` under `k1` gives the same query as `k1=a` and `k2=b` as two parameters |
| ApiPattern.Client.ConstructBasePath | lib/api-pattern/client.rb:96-104 | the URL starts with `base_path/path`; it is exactly that when there are no parameters; otherwise it continues with `?` and then the query |
| ApiPattern.Client.UrlSplitsAtQuery | lib/api-pattern/client.rb:96-104 | when no part holds a `?`, splitting the URL at `?` gives back the path and the query, and the URL holds exactly one `?` iff there are parameters |
| ApiPattern.Client.UnauthorisedHeaders | lib/api-pattern/client.rb:29 | the header map is exactly `{Content-Type: application/json}` |
| ApiPattern.Client.AuthorisedHeaders | lib/api-pattern/client.rb:45 | the unauthorised headers, followed by `Token` set to the client's token |
| ApiPattern.Client.BodyIsMissing | lib/api-pattern/client.rb:76-78 | holds exactly when the body is nil or empty |
| ApiPattern.Client.BodyIsPresent | lib/api-pattern/client.rb:72-74 | holds exactly when the body is a non-empty string |
| ApiPattern.Client.ParseBody | lib/api-pattern/client.rb:80-90 | a nil body raises TypeError. A parse error returns the raw body. A parsed Array raises TypeError and any other non-object raises NoMethodError. An object yields either its truthy entry at `path` or the whole object |
| ApiPattern.ParseBodyUnwrapsIff | lib/api-pattern/client.rb:83-87 | the whole object comes back iff the entry at `path` is missing, nil or false; otherwise that entry, which is never the object itself |
| ApiPattern.MessagesBodyMatches | test/api-pattern/client_test.rb:68-91 | `{"message":"Success"}` comes back whole for path `messages`, and normalises to the same Hash as the symbol-keyed expectation |
| ApiPattern.Client.ConstructMetadata | lib/api-pattern/client.rb:62-69 | the keys are `start_time`, `end_time` and `total_time`, in that order; both timestamps are stored as given and the total is their difference |
| ApiPattern.FrozenClockMetadata | lib/api-pattern/client.rb:62-69 | equal timestamps give a total time of 0 |
| ApiPattern.Client.ConstructResponseObject | lib/api-pattern/client.rb:54-59 | the envelope has exactly the keys `body`, `headers` and `metadata`; the headers are passed through untouched; an error raised while decoding the body propagates |
| ApiPattern.Client.UnauthorisedAndSend | lib/api-pattern/client.rb:22-36 | the transport receives the verb as a Symbol, the built URL, the payload, the JSON content-type header, the port and `format: :json`; the result is the envelope of the reply; payload and params default to empty |
| ApiPattern.Client.AuthoriseAndSend | lib/api-pattern/client.rb:38-52 | the same call as the unauthorised one except for the headers, which add `Token`; payload and params default to empty |

## Left out

- The HTTParty call is not modelled. The reply (body and headers) is an input of the send methods, and the request they would pass is an output. How HTTParty serialises `body:` is not modelled.
- `get_micro_second_time` reads the wall clock through a float. The start and end timestamps are integer inputs.
- `JSON.parse` is a foreign library. Its result is an input of `ParseBody`: `None` stands for `JSON::ParserError`. The model does not relate that input to the body text.
- Values are limited to nil, booleans, integers, strings, arrays and hashes. Floats are not modelled, and Hash keys other than Strings and Symbols are not modelled.
- Query parameter values are taken as strings. The `to_s` of non-String values is not modelled.
- `initialize`'s defaults are not modelled: the base path and port are explicit inputs. The default `BASE_URI` is not defined in the gem. `BASE_PORT` lives in `ApiPattern::Constants`, which `Client` cannot see, so omitting either argument raises NameError.
- The client tests build clients with `content_type:` and one without `token:`. `initialize` as written rejects both with ArgumentError, and the model follows `initialize`.
- ClassHelpers.RubyHash.WithIndifferentAccess: the shallow `dup` shares nested Hash objects with the receiver, and Ruby normalises those in place. The model treats nested Hashes as values, so the receiver's nested Hashes are not shown as changed.
- Normalisation does not descend into Arrays, which matches the code: only direct Hash values are normalised.
- ApiPattern.Client.constructor: the token is a string, so `token: nil` is not modelled. `initialize` accepts it, and `authorise_and_send` (`lib/api-pattern/client.rb:45`) then passes HTTParty a headers Hash that holds `Token: nil`.
- `lib/api-pattern/constants.rb` is not part of this model: it holds constants only, none of which `Client` can see.
- `lib/api-pattern.rb` is not part of this model: it holds `require` lines and an empty `ApiPattern::Error` class that `Client` never raises.
