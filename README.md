# bitsofpluto: the crop-selection heuristic, in Dafny

bitsofpluto is a Mastodon bot that posts a random piece of a large photo of
Pluto every six hours. This project models the two pieces of real logic in the
bot, both from `bitsofpluto.py`:

- **Crop selection** (`bitsofpluto`). Each pass of the retry loop does five things:
  - it picks a width from `WIDTHS = [600, 800, 1000, 1200, 2000]` and takes the 4:3 height `width * 3 / 4`;
  - it draws a top-left corner so that the box fits inside the source image, and crops;
  - it samples the nine points `{0, right/2, right} x {0, bottom/2, bottom}` of the crop;
  - it counts the points whose brightness `(r + g + b) / 3` is below 10;
  - it accepts the first crop with at most six dark points.
- **Credential check** (`load_yaml`). The parsed credential map is returned unchanged when it holds `mastodon_client_id`, `mastodon_client_secret` and `mastodon_access_token`. Otherwise the process exits with a message naming the file.

Modules:

- `Image` (`image.dfy`): RGB pixels with 8-bit channels, brightness, darkness, and the crop. An image is an `array2<Pixel>` indexed `[column, row]`. It is only read, never modified.
- `Sampling` (`sampling.dfy`): the width whitelist, the height rule and the nine sample points.
- `Selector` (`selector.dfy`): the retry loop `SelectCrop`, its body `TryAttempt`, and the loop over the nine points `CountDarkPoints`. There is also a recursive reference definition `Select` that `SelectCrop` is proved equal to, and lemmas about `Select`.
- `Credentials` (`credentials.dfy`): the key check of `load_yaml`.

Modelling decisions:

- **Randomness is an input.** Attempt k of the loop is `attempts[k] = Attempt(widthIndex, x, y)`, the values that `random.choice` and `random.randrange` returned. `WellDrawn` requires that they lie in the ranges those calls draw from.
- **The loop is bounded by the attempt list.** The source loops forever (`while True`). Here the loop stops when the attempts run out, with the outcome `Exhausted`.
- **An image smaller than the crop size is an error.** Then `randrange` gets an empty range and raises `ValueError`, which leaves the loop. This is the outcome `EmptyRange`; it is not retried.
- **Height is an integer.** The source computes `width * 3 / 4` as a float. It is a whole number for every listed width, so the model uses the integer quotient (`HeightIsExact`).
- **Midpoints are floor divisions.** The coordinates `right / 2` and `bottom / 2` are floats ending in .5, since every width and height is even. The model takes the floor, which assumes that the pixel lookup truncates a non-negative float coordinate (`MidpointIsTruncated`).
- **Brightness uses exact real division** in place of the source's float division. The two agree on the `< 10` test: for every channel sum in 0..765 it holds exactly when the sum is below 30 (`DarkIffSumBelowThirty`), and the float quotient of such a sum by 3 lies on the same side of 10.

## Model

| member | source | states |
|---|---|---|
| `Credentials.LoadCredentials` | bitsofpluto.py:37-43 | the map is accepted iff every required key is present, is then returned unchanged, and otherwise the exit message names the file |
| `Credentials.MissingMessage` | bitsofpluto.py:42 | the exit message is longer than the file name and ends with it |
| `Credentials.MissingKeyAborts` | bitsofpluto.py:37-42 | the absence of any single required key aborts the load |
| `Credentials.ExtraKeysDoNotMatter` | bitsofpluto.py:37-41 | adding keys outside the required set never changes whether the map is accepted |
| `Credentials.DocumentedFileIsAccepted` | bitsofpluto.py:28-43 | the documented three-key file is accepted as is; removing the access token makes it abort |
| `Image.ChannelSum` | bitsofpluto.py:124-125 | the sum of a pixel's three 8-bit channels lies in 0..765 |
| `Image.Brightness` | bitsofpluto.py:125 | brightness lies in 0..255 and is one third of the channel sum |
| `Image.IsDark` | bitsofpluto.py:128 | a dark pixel has every channel below 30 |
| `Image.DarkIffSumBelowThirty` | bitsofpluto.py:125-128 | brightness `(r+g+b)/3 < 10` holds exactly when `r+g+b < 30` |
| `Image.Crop` | bitsofpluto.py:105 | the crop of an in-bounds box is a new image of the box's size, and its pixel (i, j) is the source pixel (x+i, y+j); the source is not modified |
| `Sampling.HeightOf` | bitsofpluto.py:99 | for a width divisible by 4 the height is exactly three quarters of it; it never exceeds the width |
| `Sampling.HeightIsExact` | bitsofpluto.py:98-99 | for every whitelisted width, the integer height equals the real quotient `width*3/4` and lies strictly between 0 and the width |
| `Sampling.SamplePoints` | bitsofpluto.py:106-120 | there are nine sample points, all inside a crop of the given size |
| `Sampling.SamplePointsAreGrid` | bitsofpluto.py:106-120 | the sample points are exactly `{0, right/2, right} x {0, bottom/2, bottom}` |
| `Sampling.SamplePointsDistinct` | bitsofpluto.py:110-120 | in any crop at least 3x3 the nine points are pairwise distinct |
| `Sampling.MidpointIsTruncated` | bitsofpluto.py:108-119 | for every whitelisted size, `right/2` and `bottom/2` are the integer halves plus exactly 0.5, so truncation gives the floor |
| `Selector.DarkCount` | bitsofpluto.py:121-129 | the dark count never exceeds the number of points sampled |
| `Selector.DarkCountIsCardinality` | bitsofpluto.py:121-129 | the dark count equals the number of sampled points whose pixel is dark |
| `Selector.DarkAtAtMostNine` | bitsofpluto.py:121-129 | the dark count of a crop lies in 0..9 |
| `Selector.CountDarkPoints` | bitsofpluto.py:121-129 | the accumulator loop over the nine points returns the number of dark sampled pixels |
| `Selector.DarkCountOfCrop` | bitsofpluto.py:105-124 | counting on the cropped image gives the same count as sampling the source image at the crop's offset |
| `Selector.WellDrawn` | bitsofpluto.py:101-102 | when the size fits, a drawn corner puts the whole box `(x, y, x+width, y+height)` inside the image |
| `Selector.Fits` | bitsofpluto.py:101-102 | an image of at least 2000x1500 pixels fits every whitelisted size, so `randrange` gets a non-empty range |
| `Selector.SelectCrop` | bitsofpluto.py:97-136 | the retry loop's outcome is the reference selection `Select`; the returned crop is a new image, and an accepted crop lies inside the source and holds its pixels |
| `Selector.TryAttempt` | bitsofpluto.py:98-134 | one pass of the loop body decides exactly `Verdict`: raise on an oversized crop, accept, or discard; the crop is a new image, and an accepted crop holds the source pixels of its box |
| `Selector.Verdict` | bitsofpluto.py:98-136 | one pass of the loop goes on to the next attempt iff the crop fits and has more than six dark points; it raises iff the size does not fit; an accepted crop has a whitelisted width, at most six dark points, and lies inside the image |
| `Selector.Select` | bitsofpluto.py:97-136 | the loop from attempt `from` on either runs out of attempts or stops at an attempt at or after `from` |
| `Selector.SelectIsFirstDecisive` | bitsofpluto.py:97-136 | the outcome is decided by the first attempt that is not discarded |
| `Selector.SelectExhaustedIff` | bitsofpluto.py:97-136 | no crop is chosen iff every attempt fits the image and is rejected |
| `Selector.ExhaustedDiscards` | bitsofpluto.py:97-136 | when the loop runs out of attempts, every attempt was cropped and had more than six dark points |
| `Selector.AllDiscardedExhausts` | bitsofpluto.py:97-136 | when every attempt fits and has more than six dark points, the loop runs out of attempts |
| `Selector.SelectComesFromFirstDecisive` | bitsofpluto.py:97-136 | any outcome other than exhaustion is the verdict on one attempt, and every earlier attempt was discarded |
| `Selector.AcceptedIsFirstGoodCrop` | bitsofpluto.py:97-136 | an accepted crop has a whitelisted width and a 4:3 height, lies inside the source image, has at most six dark points, and every earlier attempt had at least seven |
| `Selector.EmptyRangeIsOversizedCrop` | bitsofpluto.py:98-102 | the loop raises only for a whitelisted size wider or taller than the image, after discarding every earlier attempt |
| `Selector.LargeImageNeverRaises` | bitsofpluto.py:98-102 | on an image of at least 2000x1500 pixels the loop never raises |

## Left out

- closest_point_to_pluto.py: it depends on the external `ephem` ephemeris library and uses float-accumulating grid steps. It is only referenced in commented-out code, so closest_point_to_pluto.py is not part of this model.
- `toot_it`: Mastodon client construction, media upload, status post and browser launch are network and UI code. Its early return on an empty status is trivial.
- `main`: command-line parsing with argparse.
- File and image I/O: opening the PNG, saving the JPEG at quality 95, and the fixed temporary path `bitofpluto.jpg`. The model works on an in-memory pixel grid and returns the accepted box and its pixels.
- YAML parsing in `load_yaml`: the model checks a given `map<string, string>`. It does not model a document that parses to something other than a mapping.
- `total_brightness` and all `print` calls: the float sum is only printed.
- The random number generator: the draws are caller-supplied attempts, constrained by `WellDrawn`.
- `Selector.SelectCrop`: the source loop is unbounded. The model stops after a finite list of attempts with `Exhausted`, which the source never returns.
- Passing the float height to `randrange`: Python 3.12 and later refuse a float stop. The model uses the integer height, which has the same value (`HeightIsExact`).
- Float midpoints passed to `getpixel`: the model assumes the lookup truncates a non-negative float coordinate, so `right / 2` reads the column `(width - 1) / 2` (`MidpointIsTruncated`).
- Images whose pixels are not RGB triples (for example RGBA): the source's three-way unpacking would fail on them. The model has RGB pixels only.
