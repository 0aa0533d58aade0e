# Scam-check bot core, modelled in Dafny

The bot answers two Telegram commands:

- `/address <address>` asks whether an address is listed in the scam database `scam_check.db`. If it is, the reply also gives the domains linked to it.
- `/domain <domain>` does the same for a domain. The domain is first reduced to a canonical key: lower-cased, with `https://`, `http://` and `www.` deleted and everything from the first `/` dropped.

The model has three modules. Each follows one layer of `main.py`.

- `DomainNormalizer` (normalize.dfy) models `normalize_domain`.
  - It is pure string processing, so it is written as functions and lemmas.
  - `str.lower` is `Lower`.
  - `str.replace(p, '')` is `RemoveAll`, a single left-to-right pass that skips each non-overlapping match.
  - `split('/')[0]` is `BeforeSlash`.
- `AssociationStore` (store.dfy) models the three tables and the two lookups `check_address` and `check_domain`.
  - The tables are `addresses(id, address)`, `domains(id, domain)` and `domain_address_mapping(domain_id, address_id)`.
  - The database is the class `ScamDatabase`, whose fields hold the three tables.
  - The `EXISTS` queries are loops over one table.
  - The joins are triple nested loops in the order of their `FROM … JOIN … JOIN` clauses.
  - Each method is proved equal to a specification function:
    - `AddressExists` and `DomainExists` for the existence queries;
    - `DomainsOf` and `AddressesOf` for the joins.
  - The properties of the joins are proved as lemmas about those functions.
  - The lookups only issue `SELECT`s. The methods carry no `modifies` clause, so Dafny checks that they leave all three tables unchanged.
- `Commands` (commands.dfy) models the two command handlers.
  - Argument extraction follows `text.split(maxsplit=1)[1].strip()` with Python's `isspace` character set. A missing second field (Python's `IndexError`) yields `None` and the usage reply.
  - The reply is built by concatenation in one of its three forms.
  - Each handler's ghost result records the key it passes to the lookup, or `None` when it replies with the usage prompt.

### What the normaliser deletes

The docstring of `normalize_domain` (`main.py:60`) speaks of removing `https://`, `http://` and `www.`, which reads naturally as dropping a leading scheme and a leading `www.`. The code does more than that: `str.replace` deletes every occurrence, anywhere in the string. The model follows the code, and two consequences are proved about it.

- `NormalizeDomainDeletesInnerWww` shows that an inner `www.` is deleted: `a-www.io` becomes `a-io`.
- `NormalizeDomainNotIdempotent` shows that the deletion can splice a new `www.` together. `wwwww.w.` normalises to `www.`, and normalising again gives the empty string.

## Model

| member | source | states |
|---|---|---|
| DomainNormalizer.LowerChar | main.py:61 | the result is never an upper-case ASCII letter; `A`-`Z` move up by 32 and every other character is kept |
| DomainNormalizer.Lower | main.py:61 | lower-casing keeps the length, leaves no upper-case ASCII letter, and returns text that has none unchanged |
| DomainNormalizer.RemoveAll | main.py:62-63 | definition of `replace(p, '')`, no contract; its properties are the two rows below |
| DomainNormalizer.RemoveAllShrinks | main.py:62-63 | `replace(p, '')` never lengthens the text and never introduces a character |
| DomainNormalizer.RemoveAllAbsent | main.py:62-63 | `replace(p, '')` returns the text unchanged when `p` does not occur in it |
| DomainNormalizer.BeforeSlash | main.py:64 | definition of `split('/')[0]`, no contract; its properties are in `BeforeSlashPrefix` |
| DomainNormalizer.BeforeSlashPrefix | main.py:64 | `split('/')[0]` is a prefix of its input with no `/`; it equals the input exactly when the input has no `/` |
| DomainNormalizer.SlashFreeHasNoScheme | main.py:62-64 | a string without `/` contains neither `https://` nor `http://` |
| DomainNormalizer.NormalizeDomain | main.py:59-64 | definition of `normalize_domain`, no contract; its properties are the rows below |
| DomainNormalizer.NormalizeDomainShape | main.py:59-64 | for every input the key has no `/`, no upper-case ASCII letter, no `https://` or `http://`, and is no longer than the input |
| DomainNormalizer.NormalizeDomainKeepsCanonical | main.py:59-64 | an input that is lower case, has no `/` and contains no `www.` is returned unchanged |
| DomainNormalizer.LeadingSchemeGone | main.py:62 | a leading `https://` is deleted and the rest is kept whenever the rest contains neither `https://` nor `http://` (a port such as `:8443` is allowed) |
| DomainNormalizer.LeadingWwwGone | main.py:63 | a leading `www.` is deleted and the rest is kept whenever the rest contains no `www.` (hosts such as `twitter.com` are allowed) |
| DomainNormalizer.NormalizeDomainExample | main.py:59-64 | `https://WWW.Example.COM/path?x=1`, written as the concatenation of its scheme, `WWW.`, host and path, normalises to `example.com` |
| DomainNormalizer.NormalizeDomainDeletesInnerWww | main.py:63 | a `www.` inside the host is deleted as well: `a-www.io` normalises to `a-io` |
| DomainNormalizer.NormalizeDomainNotIdempotent | main.py:62-63 | normalising twice can differ from normalising once: `wwwww.w.` gives `www.` and then the empty string |
| AssociationStore.Hits | main.py:80-84 | every triple the join produces is a (domain, mapping, address) row triple whose ids agree and whose key column equals the queried key |
| AssociationStore.HitsExactly | main.py:80-84 | the join produces every matching triple and only those, each exactly once |
| AssociationStore.JoinListsEachMatchOnce | main.py:78-86 | the returned list holds each string exactly as many times as there are matching triples carrying it |
| AssociationStore.AnswersMembership | main.py:78-86 | a string is in the returned list exactly when some matching triple carries it |
| AssociationStore.LinkSymmetry | main.py:80-84 | `d` is in the domains of `a` exactly when `a` is in the addresses of `d`; then both keys exist in their tables |
| AssociationStore.AbsentKeyHasNoLinks | main.py:76-77 | a key missing from its table has an empty join result, so skipping the join for it loses nothing |
| AssociationStore.ExistenceIndependentOfLinks | main.py:72-86 | with every mapping row removed each key exists exactly as before and both joins are empty: a key can exist with no links |
| AssociationStore.DanglingMappingIgnored | main.py:82-83 | adding a mapping row whose domain id or address id matches no row leaves both joins' results unchanged |
| AssociationStore.ScamDatabase.AddressExistsQuery | main.py:72-74 | the scan returns true exactly when some address row holds the key |
| AssociationStore.ScamDatabase.DomainExistsQuery | main.py:97-99 | the scan returns true exactly when some domain row holds the key |
| AssociationStore.ScamDatabase.DomainsJoin | main.py:78-86 | the nested loops over domains, mapping and addresses return exactly the join's list of domains for the address |
| AssociationStore.ScamDatabase.DomainsJoinRow | main.py:80-84 | the loop over mapping rows for one domain row returns exactly that row's share of the join |
| AssociationStore.ScamDatabase.DomainsJoinAt | main.py:80-84 | the loop over address rows for one domain row and one mapping row keeps each address row whose id matches and whose address is the key, and contributes the domain once for each |
| AssociationStore.ScamDatabase.AddressesJoin | main.py:103-111 | the nested loops over addresses, mapping and domains return exactly the join's list of addresses for the domain |
| AssociationStore.ScamDatabase.AddressesJoinRow | main.py:105-109 | the loop over mapping rows for one address row returns exactly that row's share of the join |
| AssociationStore.ScamDatabase.AddressesJoinAt | main.py:105-109 | the loop over domain rows for one address row and one mapping row keeps each domain row whose id matches and whose domain is the key, and contributes the address once for each |
| AssociationStore.ScamDatabase.CheckAddress | main.py:67-89 | returns whether the address exists and, only when it does, its linked domains; otherwise the empty list |
| AssociationStore.ScamDatabase.CheckDomain | main.py:92-114 | returns whether the domain exists and, only when it does, its linked addresses; otherwise the empty list |
| Commands.TrimStart | main.py:138 | definition of `lstrip`, no contract; its properties are in `TrimStartFacts` |
| Commands.TrimEnd | main.py:138 | definition of `rstrip`, no contract; its properties are in `TrimEndFacts` |
| Commands.Strip | main.py:138 | definition of `strip` as `rstrip` after `lstrip`, no contract |
| Commands.SkipField | main.py:138 | definition of passing over one field of non-space characters, no contract; its properties are in `SkipFieldFacts` |
| Commands.SecondField | main.py:138 | definition of `split(maxsplit=1)[1]`, `None` when there is no second element, no contract; its properties are in `SecondFieldOffsets` and `PresentArgumentHasSecondField` |
| Commands.CommandArgument | main.py:137-143 | definition of the argument extraction, `None` on `IndexError`, no contract; its properties are in `ArgumentPresentIffSecondField` and `ArgumentIsTrimmedTail` |
| Commands.TrimStartFacts | main.py:138 | `lstrip` drops exactly the leading whitespace: the result is a suffix that is empty or starts with a non-space character |
| Commands.SkipFieldFacts | main.py:138 | skipping the first field drops exactly the leading run of non-space characters |
| Commands.TrimEndFacts | main.py:138 | `rstrip` drops exactly the trailing whitespace: the result is a prefix that is empty or ends with a non-space character |
| Commands.SecondFieldOffsets | main.py:138 | the whitespace, command field and separating whitespace that `split(maxsplit=1)` passes over occupy consecutive ranges of the text |
| Commands.PresentArgumentHasSecondField | main.py:138 | when `split(maxsplit=1)` yields a second element, the text has a non-space run, then whitespace, then a non-space character |
| Commands.SecondFieldMakesArgument | main.py:137-143 | when the text has a non-space character, later whitespace and later again a non-space character, no `IndexError` is raised |
| Commands.ArgumentPresentIffSecondField | main.py:137-143 | an argument is found exactly when the text has a second whitespace-separated field; otherwise the usage prompt is sent |
| Commands.ArgumentIsTrimmedTail | main.py:138 | a found argument is non-empty, starts and ends with a non-space character, and occurs in the text followed only by whitespace |
| Commands.JoinWith | main.py:149 | definition of `', '.join`, no contract; its property is in `JoinWithContains` |
| Commands.JoinWithContains | main.py:149 | every list item appears inside `', '.join` of the list |
| Commands.Report | main.py:146-153 | definition of the three reply forms shared by both commands, no contract; its properties are in `ReportShape` |
| Commands.AddressReport | main.py:146-153 | definition of the address reply, no contract |
| Commands.DomainReport | main.py:171-177 | definition of the domain reply, no contract |
| Commands.ReportShape | main.py:146-153 | the reply starts with the warning sign exactly when flagged and with the check mark otherwise; the key stands right after "The <entity> "; a flagged reply names every linked item, or ends with the "No specific … associated" sentence when there are none |
| Commands.AddressCommand | main.py:135-155 | no argument gives the address usage prompt; otherwise the trimmed argument is looked up verbatim and the reply reports its existence and linked domains |
| Commands.DomainCommand | main.py:158-179 | no argument gives the domain usage prompt; otherwise the normalised argument is looked up and echoed, and the reply reports its existence and linked addresses |

## Left out

- The Flask webhook route, the Telegram bot object and `reply_to` are not modelled. The handlers return the reply text instead of sending it.
- `/start`, `/help`, the `/ask` command and its call to the external language-model service are not modelled. That service is network I/O outside the lookup core.
- Environment configuration (tokens, the webhook URL) and the database set-up script are not modelled.
- Opening and closing the SQLite connection is not modelled. So is the error raised when `scam_check.db` is missing or unreadable: the database is an in-memory object that is always available.
- `str.lower` is modelled on ASCII letters only. Python's full Unicode case mapping (which can change the length of a string) is not modelled.
- The order of join rows is the nested-loop order of the `FROM … JOIN … JOIN` clauses. SQLite's query planner may pick another order. The exact equations of the join methods (`DomainsJoin`, `AddressesJoin` and their row and inner loops), of `CheckAddress` and `CheckDomain`, of the replies of `AddressCommand` and `DomainCommand`, and of `DanglingMappingIgnored` fix the list in that nested-loop order. `HitsExactly`, `JoinListsEachMatchOnce`, `AnswersMembership`, `LinkSymmetry`, `AbsentKeyHasNoLinks` and `ExistenceIndependentOfLinks` count occurrences or test membership, so they hold for any row order.
- Uniqueness of `address` and `domain` values and referential integrity of the mapping table are not assumed. The code does not enforce them either, and the lemmas hold without them.
