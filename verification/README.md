# HashCash stamps in Dafny

A model of `HashCash::Stamp` from the Ruby `hashcash` library. It covers version 1
hashcash stamps of the form `version:bits:date:resource:ext:rand:counter`:

- **`Stamp.new(:stamp => text)`** parses a stamp. It splits the text on `:`, reads
  `bits` leniently with `String#to_i`, rejects any version other than 1 and decodes the
  date positionally with `parse_date`, which uses `Time.utc` and its range checks and
  roll-over.
- **`Stamp.new(:resource => r, ...)`** mints a stamp. It builds the prefix
  `1:bits:date_to_str(date):resource::rand:` and then tries `ctr.to_s(36)` for
  ctr = 0, 1, 2, ... It keeps the first candidate whose SHA-1 digest starts with `bits`
  zero bits, tested as `digest.unpack('B*')[0][0, bits].to_i == 0`.
- **`verify(resources, bits)`** runs three checks in order and raises at the first one
  that fails:
  1. resource membership, where a single String becomes a one-element list;
  2. a two-day window around now, inclusive;
  3. `hexdigest.hex >> (160 - bits) == 0`.
- **`to_s`** returns the stamp text.

The model has five modules:

- **`Wrappers`** holds `Option`, `Result` and `Outcome`.
- **`RubyText`** holds the Ruby primitives the class relies on, with their edge cases:
  - `to_i`, including white space, sign, the `0d` prefix, underscores and `nil.to_i`;
  - `str[start, len]`;
  - `split(':')`, which drops trailing empty fields;
  - `Integer#to_s` and `to_s(36)`.
- **`Calendar`** holds a calendar-time record, the `Time.utc` validation and
  normalisation, `parse_date` and `date_to_str`.
- **`Difficulty`** holds the two ways the code states "the first `bits` bits are zero",
  with a proof that they agree for every integer `bits`.
- **`HashCash`** holds the error kinds, the parser, the mint loop and the class `Stamp`.
  `Stamp` has the instance variables of the Ruby object, a `New` method for the
  constructor, and `Verify` and `ToS`.

SHA-1 is the parameter `sha1`, a function from strings to 160-bit digests. The clock is
a parameter: a calendar time `clock` when minting, and Unix seconds `now` when verifying.
The random part of a minted stamp is the parameter `nonce`.

Where the documented stamp format and the code differ, the model follows the code:

- there is no field-count check: extra fields are ignored, fields missing after the date are `nil`,
  and a text with fewer than three fields fails on the missing date;
- an empty resource is accepted;
- `@version`, `@rand` and `@counter` are set only when parsing.

## Model

| member | source | states |
|---|---|---|
| HashCash.ParseStamp | lib/hashcash.rb:46-54 | Parsing succeeds exactly when the first field reads as 1, the split gives at least three fields and the third decodes as a date, whatever the number of further fields. A parsed stamp keeps the input text unchanged. Its version is the first field as written, which reads as 1. Its `bits` is the `to_i` of the second field (`nil.to_i` = 0). Its date is the decoded third field, and its resource, rand and counter are fields 4, 6 and 7 by position, `nil` where the split gave fewer. A first field that does not read as 1 is exactly `IncorrectVersion`, carrying that field as written. Fewer than three fields with version 1 is exactly `MissingDate`. The only other failure is an out-of-range date. |
| RubyText.ToINonNumeric | lib/hashcash.rb:50 | Text that does not begin with a numeral (white space, a sign or a digit) reads as 0, so non-numeric bits give 0 rather than an error. |
| RubyText.ToIOfDigits | lib/hashcash.rb:50 | `to_i` of a string of digits is its decimal value. |
| RubyText.DecimalRoundTrip | lib/hashcash.rb:68-69 | `to_i` of `Integer#to_s` gives back the integer, negative ones included. So the version and bits written into a minted stamp read back unchanged. |
| RubyText.SplitJoin | lib/hashcash.rb:48-49 | Splitting on `:` the colon-join of colon-free fields whose last field is non-empty gives back those fields. |
| RubyText.Slice | lib/hashcash.rb:122-128 | `s[start, len]` is `nil` when the start lies past the end or the length is negative. Otherwise its length is `len`, cut short at the end of `s`, and its i-th character is `s[start + i]`. |
| Calendar.MakeUtc | lib/hashcash.rb:129 | `Time.utc` fails exactly when a component is out of range. Otherwise it gives a valid date with the same second count as the components (a 60th second, a 24th hour or a day past the month's end rolls over). Already-valid components give the same date. |
| Calendar.Normalize | lib/hashcash.rb:129 | The rolled-over date is valid and counts the same seconds since the epoch as the raw components. |
| Calendar.ParseDate | lib/hashcash.rb:121-130 | A decoded date is a valid calendar date in the years 1991-2100 (2000 plus a two-character field that reads as -9 to 99, possibly rolled over). |
| Calendar.TwoCharBound | lib/hashcash.rb:122 | A field of at most two characters reads as -9..99, or as 0 when it is `nil`. |
| Calendar.ParseDateExample | lib/hashcash.rb:40 | `060408` decodes to 2006-04-08 00:00:00 UTC. |
| Calendar.ExampleDateSeconds | lib/hashcash.rb:40 | 2006-04-08 00:00:00 UTC is 1144454400 seconds after the epoch. |
| Calendar.DateToStr | lib/hashcash.rb:133-141 | The encoding is digits only, with no colon. It has 6 characters exactly when hour, minute and second are zero, 10 exactly when only the second is zero, and 12 exactly when the second is non-zero. |
| Calendar.DateToStrFields | lib/hashcash.rb:133-141 | Each two-character field of the encoding at offsets 0 to 10 reads back as year mod 100, month, day, hour, minute and second. A field past the end reads as 0. |
| Calendar.DateRoundTrip | lib/hashcash.rb:121-141 | Decoding an encoded date gives it back to the second, except that the century becomes 2000. |
| Calendar.DateRoundTripThisCentury | lib/hashcash.rb:121-141 | For years 2000-2099, decoding an encoded date gives it back exactly. |
| Calendar.LeapYearOfTwoDigitYear | lib/hashcash.rb:129 | Moving a leap year into 2000-2099 by its last two digits keeps it a leap year, so February 29 survives the round trip. |
| Difficulty.MintTestZeroPrefix | lib/hashcash.rb:75 | The mint-side test `unpack('B*')[0][0, bits].to_i == 0` holds exactly when the first `bits` digest bits are zero (all of them when bits > 160, vacuously when bits <= 0). |
| Difficulty.VerifyTestZeroPrefix | lib/hashcash.rb:108 | The verify-side test `hex >> (160 - bits) == 0` holds exactly when the first `bits` digest bits are zero. A negative shift count shifts left. |
| Difficulty.DifficultyTestsAgree | lib/hashcash.rb:75 | The mint-side and verify-side tests give the same answer for every digest and every bit count. |
| Difficulty.VerifyTestMonotone | lib/hashcash.rb:108 | A digest that passes at n bits passes at every m <= n. |
| Difficulty.ZeroBitsAlwaysPass | lib/hashcash.rb:75 | At zero bits or fewer, both tests accept every digest. |
| Difficulty.ShiftKeepsPrefix | lib/hashcash.rb:108 | Shifting the 160-bit digest value right by 160 - n leaves the value of its first n bits. |
| HashCash.Search | lib/hashcash.rb:71-79 | The loop returns `prefix + c.to_s(36)` for the least counter c whose candidate passes: it passes and every smaller counter fails. At bits <= 0 the counter is 0. |
| HashCash.Stamp.New | lib/hashcash.rb:41-81 | With neither `:stamp` nor `:resource` it gives `MissingArguments` and no stamp. With `:stamp` it gives the parse error or a fresh stamp holding the parsed fields. With `:resource` it gives a fresh stamp holding the resource, bits (default 20), date (default the clock) and the text of the first passing counter after the mint prefix. |
| HashCash.Stamp.constructor | lib/hashcash.rb:47-54 | The new object holds exactly the given instance variables. |
| HashCash.Stamp.ToS | lib/hashcash.rb:115-117 | `to_s` is the stored stamp text. |
| HashCash.Stamp.Verify | lib/hashcash.rb:92-112 | Passes exactly when the resource is listed, the date is within 172800 seconds of now either way, and the first `bits` digest bits of the text are zero. Each error comes exactly when the checks before it pass and its own fails: not a String or Array, then the resource, then expiry, then the work. |
| HashCash.MintedTextFields | lib/hashcash.rb:68-74 | A minted text is the colon-join of the seven fields `1`, bits, the encoded date, resource, an empty extension, the nonce and the base-36 counter. |
| HashCash.ParseStampOfJoin | lib/hashcash.rb:47-54 | Parsing seven colon-free fields (the last non-empty) whose version reads as 1 and whose date decodes yields those fields, the bits read by `to_i`. |
| HashCash.MintedTextParses | lib/hashcash.rb:47-74 | Parsing a minted text gives back its bits, resource, nonce and counter, with version `"1"`, and its date with the century taken as 2000. |
| HashCash.MintedTextParsesThisCentury | lib/hashcash.rb:47-74 | For dates in 2000-2099, parsing a minted text gives back the minting date itself. |
| HashCash.ParseWikipediaStamp | test/test_hashcash.rb:15-22 | The hashcash.org example stamp parses to version 1, 20 bits, 2006-04-08, resource `adam@cypherspace.org`, rand `1QTjaYd7niiQA/sc` and counter `ePa`. |
| HashCash.VersionTwoRejected | lib/hashcash.rb:51-53 | Every text whose version field is `2` is rejected with `IncorrectVersion`. |
| HashCash.MintedStampVerifies | lib/hashcash.rb:75 | A stamp whose text passes the mint-side test at its own bits verifies for its own resource at those bits and at any lower requirement, while its date is within two days of now. |
| HashCash.MintedFromVerifies | lib/hashcash.rb:68-79 | A stamp holding what minting for a resource at `bits` produces verifies for that resource at those bits while its date is within two days of now. |
| HashCash.VerifyMonotone | lib/hashcash.rb:108-110 | A stamp that verifies at n bits verifies at every m <= n. |
| HashCash.ResourceBinding | lib/hashcash.rb:97-102 | Checked against any other single resource, a stamp fails with `ResourceMismatch`. |
| HashCash.ExpiryBoundary | lib/hashcash.rb:104-106 | A date exactly 172800 seconds away either way is accepted; one second more is `Expired`. |
| HashCash.WikipediaStampVerifyErrors | test/test_hashcash.rb:24-29 | The parsed example fails against `foo@example.org` with `ResourceMismatch`. At any time after 2006-04-10 00:00:00 UTC it fails for its own resource with `Expired`, whatever its digest. |

## Left out

- SHA-1 itself (`Digest::SHA1`) is not modelled. It is an arbitrary function `sha1` from text to 160 bits, and `hexdigest.hex` is read as the same 160 bits.
- `OpenSSL::Random.random_bytes` and `Base64.encode64` (the random string) are not modelled. The nonce is a parameter.
- `Time.now` is not modelled. Minting takes the clock reading as a calendar time. Verifying takes it as whole Unix seconds, so the sub-second part of `Time.now - @date` that `to_i` truncates is not modelled.
- Time zones are not modelled. Dates are UTC calendar times with whole seconds. A `:date` given in another zone, and `strftime` of a non-UTC time, are not modelled.
- Years outside 2000-2099 are encoded by their last two digits and decoded as 20YY, which `DateRoundTrip` states. A date whose components do not form a valid calendar time is excluded by a precondition.
- HashCash.Search: requires that some counter passes. That gives the loop a termination measure, the distance to that counter. The run that never ends is not modelled.
- HashCash.Stamp.New: for the mint branch, requires that some counter passes, as `Search` does. The run that never ends is not modelled.
- HashCash.Stamp.New: `:bits` is taken as an integer. `to_i` of a String or Float `:bits` value is not modelled.
- The type check at lib/hashcash.rb:61 is not modelled. `! args[:date].class == Time` is always false, so it never raises. `:date` is typed as a calendar time.
- A `nil` argument hash is modelled as one with no keys. Both raise the same `ArgumentError`.
- `verify` with an Array whose elements are not Strings is not modelled. The list is a list of strings.
- `verify`'s default of 20 bits is not modelled as a default. `DefaultBits` is passed explicitly.
- The exception classes are not modelled. `ArgumentError`, `RuntimeError` and the `NoMethodError` from `parse_date(nil)` are the cases of `Error`.
- Calendar.ParseDate: its own contract states only validity and the year range. Its exact result is stated by `MakeUtc` together with `DateRoundTrip` and `ParseDateExample`.
