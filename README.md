# DisFlare CAPTCHA bot — a Dafny model

DisFlare is a Discord bot that screens new direct contacts. Each direct
message starts a session, which runs in this order:

- the bot mutes the contact's channel;
- it blocks accounts that are younger than `min_account_age` days, and accounts
  with a default avatar when `block_default_profile_pics` is set;
- it sends up to `captcha_retry_limit` CAPTCHA challenges, each an instruction
  message and a warped picture of six random alphanumeric characters;
- it unmutes the contact and reacts ✅ on the first case-insensitive match,
  reacts ❌ to every other reply, and blocks the contact when no attempt
  matched.

Whitelisted operators change `config.json` with `!config <key> <value>`. A
bool key stays a bool and an int key stays an int; a key of any other type
(float, list, object, null) is replaced by the value's raw text.

The model has one module per piece of the bot:

| module | file | models |
|---|---|---|
| `ChallengeText` | challenge_text.dfy | `generate_random_text`. The random choices are an input sequence of alphabet indices. |
| `Palette` | palette.dfy | The `#RRGGBBAA` colour parsing at the top of `create_captcha_image`. |
| `Warp` | warp.dfy | The background fill, the warp and the noise dots, on `array2<Rgba>` images. The uniform samples of `np.random.rand` and the coordinates of `random.randint` are inputs. |
| `Session` | session.dfy | `handle_dm`, as a method that returns the trace of what the bot does. Challenges and the outcome of each wait (a reply or a timeout) are input sequences. It is proved against the function `Session.DmTrace`, which is `Session.Session` unless the colour entries fail to parse. |
| `Config` | config.dfy | `handle_config`. `str.split(maxsplit=2)`, the bool/int/other coercion and the reply are pure functions. The `ConfigStore` class holds the configuration map and the file contents, which the method updates. |
| `Router` | router.dfy | `on_message`. |

Support modules:

- `Options` holds the `Option` type.
- `Ascii` holds character classes, Python's `isspace` set and ASCII `lower`.
- `Numerals` holds Python's `int(s, base)` for decimal and hexadecimal digits, and `str(n)`.

The screening settings and the colour entries are a `Session.Policy` value
read once at start-up. This is how main.py:15-20 copies them into module
constants. A `!config` command therefore changes the stored map, and the
file, but not the policy of later sessions.

Behaviour of main.py that the model keeps:

- Colours have four channels, from nine-character `#RRGGBBAA` strings. A seven-character `#RRGGBB` string fails to parse (`Palette.ShortFormRejected`).
- Colour entries that do not parse make the first attempt raise, after the mute and before any message. The contact then stays muted, neither blocked nor unmuted (`Session.StrandedIff`).
- A `!config` message from an author who is not whitelisted is ignored. No reply is sent.
- A configuration change does not reach the screening, as explained above.
- A retry limit of zero or less sends no challenge and blocks.
- On a match the bot unmutes before it reacts ✅.
- A failure to send is not caught and does not count as a failed attempt. Transport failures are not modelled.
- The avatar rule is modelled as intended, on whether the account has an avatar of its own; see "## Findings" for the test main.py:103 writes.

## Model

| member | source | states |
|---|---|---|
| ChallengeText.Generate | main.py:24-26 | The text has the requested length; its k-th character is the alphabet symbol of the k-th draw, so every character is a letter or a digit |
| ChallengeText.AlphabetIsLettersThenDigits | main.py:25 | The 62-symbol alphabet, by position, is exactly `ascii_letters + digits` (lower case, then upper case, then digits) |
| ChallengeText.AlphabetDistinct | main.py:25 | No symbol occurs twice in the alphabet: each symbol's position gives it back |
| ChallengeText.GenerateInjective | main.py:24-26 | Two draw sequences give the same challenge if and only if they agree on the draws used |
| ChallengeText.GenerateSurjective | main.py:24-26 | Every alphanumeric string is the challenge of some valid draws of its length |
| Palette.ChannelOfHexDigits | main.py:29 | Two hexadecimal digits at offset i parse as their base-16 pair value, which lies in 0..255 |
| Palette.ParseWellFormed | main.py:29-32 | A nine-character string with hex digits at positions 1-8 gives exactly four channels, the pairs at offsets 1, 3, 5 and 7, each a byte |
| Palette.ShortFormRejected | main.py:29-32 | Every seven-character `#RRGGBB` string fails, because the alpha slice is empty |
| Palette.EightCharacterForm | main.py:29-32 | An eight-character string is accepted, with the alpha channel read from one digit |
| Palette.FormatThenParse | main.py:29-32 | Parsing the `#rrggbbaa` text of any byte colour gives that colour back |
| Palette.ParsePaletteMissingKey | main.py:29-32 | A palette without one of the four entries fails, which is the `KeyError` |
| Palette.ParsePaletteWellFormed | main.py:29-32 | Four well-formed entries give a palette, and all four of its colours are byte colours |
| Warp.Displacement | main.py:52-53 | A uniform sample from [0, 1) becomes a displacement in [-2.5, 2.5) |
| Warp.SampleIndex | main.py:56-57 | For any displacement, the sampled index lies in 0..n-1 |
| Warp.SampleIndexIsClampedFloor | main.py:56-57 | Clipping and then truncating equals clamping the floor of the displaced position to 0..n-1 |
| Warp.SampleIndexNear | main.py:52-57 | With samples in [0, 1), a pixel is taken from at most three positions before and two after its own |
| Warp.SampleIndexStill | main.py:56-57 | With zero displacement, the pixel samples itself |
| Warp.NewImage | main.py:34 | A fresh height x width image with every pixel the background colour |
| Warp.WarpImage | main.py:50-60 | A fresh image of the input's shape whose pixel [r, c] is the input pixel at the clamped, displaced row and column; the input is not changed |
| Warp.WarpedPixelFromInput | main.py:59 | Every warped pixel is some pixel of the input image |
| Warp.WarpUniform | main.py:50-60 | A warp leaves a uniformly coloured image unchanged |
| Warp.DrawPoints | main.py:66-69 | For the 100 points drawn from the inclusive ranges, a pixel afterwards has the noise colour if it is one of the points and its old colour otherwise; points off the image change nothing, so when every point lies on the far edge (x = width or y = height) the image is as it was |
| Session.AccountAgeDays | main.py:98 | The age is the whole number of days elapsed, rounded down |
| Session.AgeCheckIff | main.py:98-99 | The age check fails if and only if less than `min_account_age` whole days have elapsed, so an age of exactly the minimum passes |
| Session.AvatarRule | main.py:103-105 | Once the age check passes, the account is screened out if and only if the avatar rule is on and the account has no avatar of its own |
| Session.AsWrittenBlocksOwnAvatars | main.py:103-105 | With the avatar rule on, the test as written screens out an account old enough that has its own avatar, which the intended rule lets through |
| Session.AsWrittenBlocksOwnAvatarsExample | main.py:103-105 | A concrete account, old enough and with its own avatar, that the test as written blocks and the intended rule admits |
| Session.FirstSolved | main.py:122-127 | Finds the first attempt in a range whose reply matches; none is found only when no attempt in the range matches |
| Session.HandleDm | main.py:95-133 | The trace of the loop with `break`/`else` is the trace specified by `Session.DmTrace`: the full session, or only the mute when the colour entries make the first attempt raise |
| Session.StrandedIff | main.py:95-133 | A session ends with the contact neither blocked nor unmuted if and only if screening passes, at least one attempt is allowed and the colour entries do not parse; the trace is then only the mute |
| Session.WellFormedColorsRunSession | main.py:109 | With four well-formed colour entries, the handler's trace is the full session |
| Session.AttemptPlayedIff | main.py:107-131 | Once screening passes, the challenge of attempt k is sent, as the k-th picture, if and only if no earlier attempt matched: wrong answers and timeouts each use one attempt and never end the loop |
| Session.BlockedWithoutChallenge | main.py:96-107 | The session is just mute then block if and only if the account is screened out or the limit allows no attempt |
| Session.MuteFirst | main.py:96 | The mute is the first action of every session, and it never happens again |
| Session.BlockIffNoMatch | main.py:107-133 | A block happens if and only if the account is screened out or no attempt matched; an unmute happens if and only if there is no block |
| Session.UnmuteOnlyAfterMatch | main.py:124-127 | An unmute comes right after the picture of the first matched challenge and right before the ✅, which is the last action |
| Session.SessionSends | main.py:107-117 | The pictures sent are the challenges of the attempts played, in order, with one prompt each; at most the retry limit are played, and every attempt is played when none matches |
| Session.RoundPromptsAndReactions | main.py:113-131 | One attempt sends one prompt and one picture; a timeout gets no reaction, a matching reply gets exactly one ✅ and any other reply exactly one ❌ |
| Session.SessionReactions | main.py:122-131 | Over a session, the ✅ and ❌ reactions together number exactly the replies received in the attempts played |
| Session.CheckMarkLast | main.py:124-127 | A ✅ is given at most once, and when given it is the last action of the session |
| Session.MatchesIffLowerEqual | main.py:124 | The match test is exactly equality of the lower-cased reply and challenge |
| Config.Split | main.py:136 | With at most two splits there are at most three parts, and no part is empty |
| Config.SplitParts | main.py:136 | In a three-part command, the command and the key are single words, and the value starts with a non-blank |
| Config.SplitJoin | main.py:136 | Splitting `command key value`, joined by single spaces, gives back the command, the key and the value |
| Config.BoolIgnoresCase | main.py:146 | For a bool key, two values that are equal after lower-casing give the same result |
| Config.BoolSpellings | main.py:146 | For a bool key, true exactly for the three spellings in any case, and false for everything else; this branch never fails |
| Numerals.ParseIntRoundTrip | main.py:148 | Decimal parsing inverts `str` for every integer |
| Numerals.ParseIntRejectsLetter | main.py:148 | A value containing a letter is never a decimal integer |
| Config.IntRoundTrip | main.py:147-148 | For an int key, the decimal text of any integer stores that integer |
| Config.IntRejectsLetters | main.py:147-148 | For an int key, a value containing a letter is rejected |
| Config.Configure | main.py:136-159 | The file is rewritten if and only if the reply is "Updated"; every other reply leaves the configuration unchanged; no key is ever added or removed; an update stores under the named, existing key the value's coercion to the key's old type, and changes no other key |
| Config.ReplyTextsDistinguishKinds | main.py:137-159 | Replies of different kinds never have the same text |
| Config.ConfigureReplies | main.py:136-159 | Each error reply has exactly its cause: usage for fewer than three parts, not found for an unknown key, invalid only for an int key whose value `int()` rejects |
| Config.ConfigureKeepsType | main.py:145-150 | An update keeps the type of a bool or int key, and stores the raw text for any other type |
| Config.ConfigureInt | main.py:136-155 | `!config <key> <n>` on an int key replies "Updated", sets the key to n and rewrites the file |
| Config.ConfigStore.constructor | main.py:11-12 | The bot starts with the loaded map both in memory and in the file |
| Config.ConfigStore.HandleConfig | main.py:135-159 | The in-place update changes the map as `Configure` does and returns its reply; the file becomes the new map after an update and is untouched otherwise |
| Router.RouteToConfigIff | main.py:89-93 | `!config` followed by any text reaches the configuration handler if and only if it is not a direct message and the author is whitelisted; a direct message always goes to the session |
| Router.RoutedIsCommand | main.py:92 | Every message routed to the configuration handler comes from a whitelisted author outside direct messages and is `!config` followed by some text |
| Router.RoutedCommandWord | main.py:92 | The first part of a routed command's split starts with `!config` |
| Router.OnMessage | main.py:89-93 | A direct message runs the handler's session; a routed command applies `Configure` to the store, sends its reply text, and rewrites the file exactly when the reply is "Updated"; anything else leaves the store and the file unchanged and does nothing |

## Left out

- Discord I/O: sending, reacting, muting, blocking and `wait_for` are events in a trace or scripted inputs. The 60-second timeout is the `Timeout` outcome. Tasks running concurrently across messages are not modelled.
- The check on whose reply `wait_for` accepts (main.py:119-120) is not modelled: an outcome is simply the next reply of the same author. Messages the bot sends to itself are not singled out either; every direct message starts a session, as in the source.
- Failures to send or react are not modelled. In the source they propagate out of `handle_dm`.
- File I/O: `json.load` (main.py:11-12) is the constructor's argument, and `json.dump` (main.py:152-153) is the `file` field taking the new map. A failing `json.dump` after the map was updated is not modelled. `save_captcha_image` (main.py:82-83, 110-111) is not modelled.
- PIL rendering: font loading, text measuring and centring, drawing the text, the five noise lines, and `GaussianBlur` (main.py:37-47, 71-78) are not modelled. They are library calls on floats.
- What PIL does with a colour channel outside 0..255 (a signed entry such as `#-1ffffff`) is not modelled; such entries parse, as `int()` does.
- Random numbers are inputs: the alphabet indices of `random.choice`, the `[0, 1)` samples of `np.random.rand` (as reals), and the `random.randint` coordinates.
- Floating point: displacements are exact reals, so the model has no rounding.
- Session.Matches and Ascii.Lower: use ASCII case folding only. Python's Unicode `str.lower` also folds other letters.
- Config.Coerce: its bool branch uses the same ASCII-only approximation of `value.lower()`.
- Numerals.ParseInt: accepts surrounding whitespace, one sign and ASCII digits. It does not accept underscores between digits or non-ASCII digits, which Python's `int()` does. Python's base-16 `int()` also accepts a `0x` prefix, but the slices of main.py:29-32 have at most two characters, and `int("0x", 16)` fails as in the model.
- JSON values are a datatype of the JSON types. Only the bool/int/other distinction matters to `handle_config`.
- Session.Account: `defaultAvatar` is whether the account has no avatar of its own. main.py:103 instead tests the truth value of `author.default_avatar`, which the model does not take as an input; see "## Findings".
- Router.OnMessage: takes the session's policy as a parameter. This follows the start-up copy of the constants and does not re-read `store.config`.

## Findings

| source | as written | input that shows it | evidently intended | confidence | as-written member | corrected member |
|---|---|---|---|---|---|---|
| main.py:103-105 | `if BLOCK_DEFAULT_PROFILE_PICS and message.author.default_avatar:` tests the truth value of `default_avatar`. In discord.py 2.x, whose `discord.utils.utcnow` main.py:98 uses, this is an `Asset` for every account and so always true | `block_default_profile_pics` on, with an account old enough that has its own avatar: it is blocked | block only accounts without an avatar of their own (`author.avatar is None`) | medium; not executed, and it rests on discord.py's documented attribute types, which are not part of this model | Session.AsWrittenBlocksOwnAvatars | Session.AvatarRule |
